/** The text `generate_qr_code` puts into the QR image (app.py line 33), and reading it back. */
module QrPayload {
  import opened Wrappers
  import opened Strings

  /** The address the QR text's last line sends a reader to, followed by the identifier. */
  const VerifyUrl := "https://your-embassy-website.com/verify/"

  /** `certificate_data.get(key, '')`: an absent field reads as the empty string. */
  function Field(data: map<string, string>, key: string): string {
    if key in data then data[key] else ""
  }

  /** The six lines of the QR template for an identifier and its `certificate_data`. */
  function Lines(certificateId: string, data: map<string, string>): seq<string> {
    [ "Certificate ID: " + certificateId,
      "Type: Birth Certificate",
      "Issued by: Embassy of Afghanistan Berlin",
      "Name: " + Field(data, "given_name") + " " + Field(data, "family_name"),
      "DOB: " + Field(data, "date_of_birth"),
      "Verify at: " + VerifyUrl + certificateId ]
  }

  /** The QR text: the template's lines separated by line breaks. */
  function Payload(certificateId: string, data: map<string, string>): (p: string)
    ensures StartsWith(p, "Certificate ID: " + certificateId)
    ensures EndsWith(p, VerifyUrl + certificateId)
  {
    var lines := Lines(certificateId, data);
    JoinStartsWithFirst(lines, '\n');
    JoinEndsWithLast(lines, '\n');
    LinkEndsLastLine(certificateId);
    Join(lines, '\n')
  }

  lemma LinkEndsLastLine(certificateId: string)
    ensures EndsWith("Verify at: " + VerifyUrl + certificateId, VerifyUrl + certificateId)
  {
    var last := "Verify at: " + VerifyUrl + certificateId;
    assert last == "Verify at: " + (VerifyUrl + certificateId);
  }

  /** Whatever the fields hold, line breaks included, the QR text contains the name line as a whole
      line, between two line breaks. */
  lemma PayloadShowsName(certificateId: string, data: map<string, string>)
    ensures Contains(Payload(certificateId, data),
                     "\nName: " + Field(data, "given_name") + " " + Field(data, "family_name") + "\n")
  {
    var ls := Lines(certificateId, data);
    var name := "Name: " + Field(data, "given_name") + " " + Field(data, "family_name");
    assert ls[3] == name;
    JoinContainsInner(ls, '\n', 3);
    assert ['\n'] + name + ['\n']
        == "\nName: " + Field(data, "given_name") + " " + Field(data, "family_name") + "\n" by {
      assert "\nName: " == ['\n'] + "Name: ";
    }
  }

  /** Likewise the date-of-birth line, whatever the date of birth holds. */
  lemma PayloadShowsDob(certificateId: string, data: map<string, string>)
    ensures Contains(Payload(certificateId, data), "\nDOB: " + Field(data, "date_of_birth") + "\n")
  {
    var ls := Lines(certificateId, data);
    var dob := "DOB: " + Field(data, "date_of_birth");
    assert ls[4] == dob;
    JoinContainsInner(ls, '\n', 4);
    assert ['\n'] + dob + ['\n'] == "\nDOB: " + Field(data, "date_of_birth") + "\n" by {
      assert "\nDOB: " == ['\n'] + "DOB: ";
    }
  }

  /** What a scanner reads off a payload: the identifier, the full name and the date of birth. */
  datatype Scanned = Scanned(certificateId: string, fullName: string, dateOfBirth: string)

  /** Reads a scanned text back: it must have the template's six lines, with the fixed lines
      unchanged and the verification link naming the same identifier as the first line. */
  function Decode(text: string): Option<Scanned> {
    DecodeLines(Split(text, '\n'))
  }

  function DecodeLines(lines: seq<string>): Option<Scanned> {
    if |lines| == 6
      && StartsWith(lines[0], "Certificate ID: ")
      && lines[1] == "Type: Birth Certificate"
      && lines[2] == "Issued by: Embassy of Afghanistan Berlin"
      && StartsWith(lines[3], "Name: ")
      && StartsWith(lines[4], "DOB: ")
      && lines[5] == "Verify at: " + VerifyUrl + lines[0][16..]
    then Some(Scanned(lines[0][16..], lines[3][6..], lines[4][5..]))
    else None
  }

  lemma FixedLinesHaveNoLineBreak()
    ensures '\n' !in "Type: Birth Certificate"
    ensures '\n' !in "Issued by: Embassy of Afghanistan Berlin"
  {
  }

  lemma LabelsHaveNoLineBreak()
    ensures '\n' !in "Certificate ID: " && '\n' !in "Name: " && '\n' !in " " && '\n' !in "DOB: "
    ensures '\n' !in "Verify at: " && '\n' !in VerifyUrl
  {
  }

  /** No line of the template holds a line break when the filled-in values hold none. */
  lemma LinesHaveNoLineBreak(certificateId: string, data: map<string, string>)
    requires '\n' !in certificateId
    requires '\n' !in Field(data, "given_name") && '\n' !in Field(data, "family_name")
    requires '\n' !in Field(data, "date_of_birth")
    ensures forall k :: 0 <= k < 6 ==> '\n' !in Lines(certificateId, data)[k]
  {
    FixedLinesHaveNoLineBreak();
    LabelsHaveNoLineBreak();
  }

  /** Splitting the payload at line breaks gives the template's lines back. */
  lemma SplitPayload(certificateId: string, data: map<string, string>)
    requires '\n' !in certificateId
    requires '\n' !in Field(data, "given_name") && '\n' !in Field(data, "family_name")
    requires '\n' !in Field(data, "date_of_birth")
    ensures Split(Payload(certificateId, data), '\n') == Lines(certificateId, data)
  {
    LinesHaveNoLineBreak(certificateId, data);
    SplitJoin(Lines(certificateId, data), '\n');
  }

  /** The template's lines read back as the values filled into them. */
  lemma DecodeTemplateLines(certificateId: string, data: map<string, string>)
    ensures DecodeLines(Lines(certificateId, data))
         == Some(Scanned(certificateId, Field(data, "given_name") + " " + Field(data, "family_name"),
                         Field(data, "date_of_birth")))
  {
    var ls := Lines(certificateId, data);
    assert ls[0][16..] == certificateId;
    assert ls[3][6..] == Field(data, "given_name") + " " + Field(data, "family_name");
    assert ls[4][5..] == Field(data, "date_of_birth");
  }

  /** Reading the payload back gives the identifier, `given + " " + family` and the date of birth
      it was made from, as long as none of them holds a line break. */
  lemma DecodePayload(certificateId: string, data: map<string, string>)
    requires '\n' !in certificateId
    requires '\n' !in Field(data, "given_name") && '\n' !in Field(data, "family_name")
    requires '\n' !in Field(data, "date_of_birth")
    ensures Decode(Payload(certificateId, data))
         == Some(Scanned(certificateId, Field(data, "given_name") + " " + Field(data, "family_name"),
                         Field(data, "date_of_birth")))
  {
    SplitPayload(certificateId, data);
    DecodeTemplateLines(certificateId, data);
  }

  /** Absent fields leave their lines in place with empty segments. */
  lemma AbsentFieldsAreEmpty(certificateId: string)
    requires '\n' !in certificateId
    ensures Decode(Payload(certificateId, map[])) == Some(Scanned(certificateId, " ", ""))
  {
    assert Field(map[], "given_name") == "" && Field(map[], "family_name") == "";
    assert Field(map[], "date_of_birth") == "";
    assert "" + " " + "" == " ";
    DecodePayload(certificateId, map[]);
  }
}
