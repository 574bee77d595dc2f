# Embassy certificate registry: a verified model of the birth-certificate core

This project models the core of the Flask application `app.py`, which runs the certificate service
of an embassy. It covers:

- the certificate identifiers `BC-<year>-<nnn>` and `MC-<year>-<nnn>`, numbered from the row count;
- the text encoded in a birth certificate's QR code;
- the extension filter applied to uploaded photos and ID-card scans;
- the `birth_certificate` table. Rows are added by `create_birth_certificate`, looked up by
  `verify_certificate` and removed only by `reset_database`.

Modules:

- `Wrappers`: `Option` and `Result`.
- `Strings`: Python's `rsplit(sep, 1)`, `str.lower` on ASCII, `'\n'.join` and `str.split('\n')`.
- `Decimal`: `str(n)`, the `:0Nd` zero padding, and a decimal parser used as their inverse.
- `CertificateIds`: the identifier format and its sequence number.
- `Uploads`: the allowed-extension test, and the name an accepted upload is stored under.
- `QrPayload`: the six-line QR text. It also defines a reader for that text, which exists only to
  state the round trip.
- `BirthRecords`: the row, reading the form, building the row, the verification response, and
  the table invariant `Issued`.
- `BirthRegistry`: the class `Registry`. Its `records` map is the table, keyed by the primary key.

The model stands in for the application's environment as follows:

- The clock (`datetime.now()`) is the `now` field of an `Environment` value.
- Whether the QR or barcode library raises is given by two booleans in that value.
- A form is a `map<string, string>`.
- An upload is the client's file name, or `None` when no file or an empty name was sent.

## Model

| member | source | states |
|---|---|---|
| CertificateIds.FormatId | app.py:250 | the identifier `prefix-year-seq`; SequenceNumberOfId shows that its last dash-separated part reads back as `count+1` for every prefix and year, and DistinctCountsDistinctIds that different counts give different identifiers |
| CertificateIds.BirthId | app.py:250 | `f"BC-{year}-{count+1:03d}"`; BirthIdShape shows it always has the birth shape, BirthIdExample and SequenceOverflowExample pin two concrete values |
| CertificateIds.MarriageId | app.py:374 | `f"MC-{year}-{count+1:03d}"`; MarriageIdIsNotBirthId shows it never has the birth shape, and MarriageIdNeverBirthId that it never equals a birth identifier |
| CertificateIds.SequenceText | app.py:250 | `count+1` formatted with `:03d` has length max(3, digits), is all digits and ends with the digits of `count+1`, so it is never truncated |
| CertificateIds.SequenceNumberOfId | app.py:250 | the number after the last `-` of an allocated identifier parses back to `count+1` |
| CertificateIds.DistinctCountsDistinctIds | app.py:250 | identifiers built from different counts differ, whatever their prefixes and years |
| CertificateIds.BirthIdShape | app.py:250 | every allocated birth identifier has the birth shape `BC-` followed by digits and dashes |
| CertificateIds.MarriageIdIsNotBirthId | app.py:374 | no marriage identifier `MC-…` has the birth shape |
| CertificateIds.MarriageIdNeverBirthId | app.py:374 | a marriage identifier never equals a birth identifier, whatever the years and counts |
| CertificateIds.BirthIdExample | app.py:250 | the seventh birth certificate of 2025 (count 6) is `BC-2025-007` |
| CertificateIds.SequenceOverflowExample | app.py:250 | the thousandth certificate of 2025 is `BC-2025-1000`: the padding widens instead of truncating |
| CertificateIds.MarriageIdExample | app.py:374 | the first marriage certificate of 2025 is `MC-2025-001` |
| Decimal.NatToDecimal | app.py:250 | `str(n)` is a non-empty digit string with no leading zero unless `n` is 0 |
| Decimal.DecimalRoundTrip | app.py:250 | parsing `str(n)` gives back `n` |
| Decimal.ZeroPad | app.py:250 | zero padding to a width gives length max(width, digits), zeros in front and the digits of `n` at the end |
| Decimal.ZeroPadRoundTrip | app.py:250 | parsing a zero-padded number gives back the number |
| Strings.LastIndexOf | app.py:261 | the result is the position of the last occurrence of the character, or None exactly when it does not occur |
| Strings.AfterLast | app.py:261 | `rsplit(c, 1)[1]` exists exactly when `c` occurs, and is the suffix after the last `c`, which contains no `c` |
| Strings.AfterLastOfSuffix | app.py:261 | for a string `head + c + tail` with no `c` in `tail`, the part after the last `c` is `tail` |
| Strings.AsciiLowerIsLowerCase | app.py:261 | `lower()` leaves no upper-case letter, leaves text without one unchanged, and lowering twice is lowering once |
| Strings.Split | app.py:33 | splitting gives at least one part, and exactly one when the separator does not occur |
| Strings.SplitJoin | app.py:33 | splitting a join of separator-free lines on the separator gives the lines back |
| Uploads.IsAllowedFilename | app.py:261 | the test `'.' in name and name.rsplit('.', 1)[1].lower() in allowed_extensions`; AllowedIffImageSuffix shows it holds exactly for names ending in one of the four image suffixes in any case |
| Uploads.AllowedIffImageSuffix | app.py:259-262 | a file name passes `'.' in name and rsplit('.',1)[1].lower() in {png,jpg,jpeg,gif}` if and only if it ends in `.png`, `.jpg`, `.jpeg` or `.gif` in any case |
| Uploads.AllowedGivesImageSuffix | app.py:259-262 | a name that passes the filter ends in one of the four image suffixes |
| Uploads.ImageSuffixGivesAllowed | app.py:259-262 | a name ending in one of the four image suffixes passes the filter |
| Uploads.StoredUploadName | app.py:259-277 | an upload gets a stored name exactly when it was sent and has an image suffix, and that name starts with `<id>_<role>_` and ends with the file name |
| Uploads.DoubleExtensionKept | app.py:269-272 | `a.tar.PNG` is accepted, because only the part after the last dot counts and the case is ignored |
| Uploads.BareWordSkipped | app.py:269-272 | `png` with no dot is skipped without an error |
| Uploads.TrailingDotSkipped | app.py:269-272 | `a.` is skipped, because its extension is empty |
| Uploads.OtherExtensionSkipped | app.py:259-262 | a name with another extension is skipped |
| QrPayload.Field | app.py:33 | `certificate_data.get(key, '')`; AbsentFieldsAreEmpty shows that absent fields become empty segments of the QR text |
| QrPayload.Lines | app.py:33 | the six lines of the QR template; SplitPayload shows the QR text splits back into exactly these lines when no field holds a line break |
| QrPayload.Payload | app.py:33 | the QR text starts with `Certificate ID: <id>` and ends with the verification link for that identifier |
| QrPayload.SplitPayload | app.py:33 | when no field contains a line break, the QR text is exactly the six template lines |
| QrPayload.DecodePayload | app.py:33 | when no field contains a line break, the QR text reads back as the identifier, the `given family` name and the date of birth |
| QrPayload.PayloadShowsName | app.py:33 | for any field values, line breaks included, the QR text contains `\nName: <given> <family>\n` |
| QrPayload.PayloadShowsDob | app.py:33 | for any field values, line breaks included, the QR text contains `\nDOB: <date of birth>\n` |
| QrPayload.AbsentFieldsAreEmpty | app.py:33 | with no fields at all, the QR text still reads back, with the name `" "` and an empty date of birth, as `.get(..., '')` gives |
| BirthRecords.ReadRequiredFields | app.py:281-283 | reading `request.form[k]` succeeds exactly when all five required keys are present, gives their values, and otherwise fails on the first missing key in source order |
| BirthRecords.DateOfBirth | app.py:283 | `f"{birthDay}.{birthMonth}.{birthYear}"`: when day and month hold no dot, splitting it at its dots gives the day, the month and then the pieces of the year |
| BirthRecords.BuildRecord | app.py:286-314 | the row carries the allocated identifier, the form's family and given names, the date of birth `day.month.year` built from the form and the clock reading as creation time; its QR image exists exactly when the QR encoder succeeds and its barcode exactly when the barcode encoder does; each upload is kept exactly when it has an image suffix |
| BirthRecords.QrCarriesRecordFields | app.py:283-304 | the date of birth stored in the row is the one the row's QR text carries, together with its identifier and full name |
| BirthRecords.IssueDate | app.py:359 | `created_at.strftime('%d.%m.%Y')`: for a day and month below 100 it is two digits, a dot, two digits, a dot and the year, each part reading back as the number it came from |
| BirthRecords.ValidBody | app.py:359 | the VALID page text; VerifyShowsWhatQrEncodes shows it carries the identifier, name and date of birth the row's QR code encodes |
| BirthRecords.VerifyShowsWhatWasTyped | app.py:281-304 | for a form holding the five required fields, whatever the encoders and uploads do, the row built from it verifies with status 200 and a page showing the typed given and family names, the typed day, month and year joined by dots, and the clock reading as issue date |
| BirthRecords.VerifyResponse | app.py:356-361 | the status is 200 exactly when a row was found and 404 otherwise, and a missing row gives the `INVALID or not found` body |
| BirthRecords.VerifyShowsWhatQrEncodes | app.py:356-361 | the VALID page shows the identifier, name and date of birth that the row's QR code encodes |
| BirthRecords.AllocatedIdIsFresh | app.py:96 | under the table invariant, the identifier allocated from the row count is never already a primary key |
| BirthRecords.NewRowWellIssued | app.py:250 | a row built under the allocated identifier fits the invariant in a table one row larger |
| BirthRecords.InsertKeepsIssued | app.py:316-317 | inserting a row under the allocated identifier adds exactly one row and keeps the invariant |
| BirthRecords.MarriageIdNeverStored | app.py:374 | no marriage identifier is ever a key of the birth table |
| BirthRecords.BirthIdHasNoLineBreak | app.py:250 | a birth identifier contains no line break, so it cannot break the QR template |
| BirthRecords.StoredQrMatchesRow | app.py:33 | every stored QR code reads back as its row's identifier, full name and date of birth |
| BirthRegistry.Registry.constructor | app.py:93-111 | a fresh table is empty and satisfies the invariant |
| BirthRegistry.Registry.Create | app.py:248-317 | a missing required field or a key clash leaves the table unchanged; otherwise exactly one row, built under `BirthId(year, count)`, is added, even when an encoder fails; the invariant is kept, and under it the request succeeds exactly when the form is complete |
| BirthRegistry.Registry.Verify | app.py:356-361 | the status is 200 exactly when the identifier is a key and the body is the VALID page for that row; otherwise the body says INVALID with status 404; under the invariant any identifier without the birth shape, including every marriage identifier, gets 404; the table is not changed |
| BirthRegistry.Registry.Reset | app.py:143-147 | after a reset the table is empty and satisfies the invariant |

## Left out

- QrPayload.DecodePayload, QrPayload.SplitPayload, BirthRecords.QrCarriesRecordFields, BirthRecords.VerifyShowsWhatQrEncodes and BirthRecords.StoredQrMatchesRow hold only when the names and the date of birth contain no line break. The form accepts values with line breaks, and such a value adds lines to the QR text, so the six-line layout no longer holds and the reader finds nothing. For any values, `PayloadShowsName` and `PayloadShowsDob` still show that the name line and the date-of-birth line appear in the text, each between line breaks.
- Rendering the QR image, the PNG encoding and base64 are not modelled. A QR artifact holds the identifier, names and date of birth, and its text is computed by `QrPayload.Payload`.
- The barcode library is not modelled. The barcode artifact holds the identifier, or is None when the library raises.
- `secure_filename` is not modelled. The stored name is the raw `<id>_<role>_<filename>` passed to it.
- Saving, checking and serving uploaded files are left out, because they are file-system I/O.
- Uploads are written to disk before the form is read. A request that then fails on a missing field leaves files on disk, and the model does not capture this.
- Login, admin checks, users and Flask routing are left out.
- SQLAlchemy sessions and transactions are not modelled. A commit is one map update; a key clash is an error that leaves the table unchanged.
- `BirthRegistry.Registry.Create`: the source reads the clock twice, once for the identifier's year and once for `created_at`. The model uses one clock reading for both.
- Two concurrent requests can read the same row count and clash on the key. Concurrency is not modelled.
- `Strings.AsciiLower`: models `str.lower` on ASCII letters only. A non-ASCII letter cannot lower to one of the four allowed extensions, so the filter's result is unaffected.
- `BirthRecords.IssueDate`: pads the year to four digits. The platform's `strftime('%Y')` may print years before 1000 without padding.
- The marriage form handler is left out apart from its identifier (`MarriageId`), which is modelled to show that it never collides with a birth identifier.
- The celibacy-certificate pages, the certificate list and detail views, and all printed diagnostics are left out.
