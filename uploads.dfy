/** The upload filter of `create_birth_certificate` (app.py lines 259-262 and 269-272). */
module Uploads {
  import opened Wrappers
  import opened Strings

  /** Membership in the source's set `{'png', 'jpg', 'jpeg', 'gif'}`. */
  predicate IsAllowedExtension(ext: string) {
    ext == "png" || ext == "jpg" || ext == "jpeg" || ext == "gif"
  }

  /** The source's test: the name holds a `.` and the text after the last `.`, lower-cased,
      is an allowed extension. */
  predicate IsAllowedFilename(filename: string) {
    '.' in filename && IsAllowedExtension(AsciiLower(AfterLast(filename, '.').value))
  }

  predicate EndsWithIgnoringCase(s: string, suffix: string) {
    |suffix| <= |s| && AsciiLower(s[|s| - |suffix|..]) == suffix
  }

  /** An independent statement of the filter: the name ends in one of the four image suffixes, in any case. */
  predicate HasImageSuffix(filename: string) {
    || EndsWithIgnoringCase(filename, ".png")
    || EndsWithIgnoringCase(filename, ".jpg")
    || EndsWithIgnoringCase(filename, ".jpeg")
    || EndsWithIgnoringCase(filename, ".gif")
  }

  predicate IsLowerWord(w: string) {
    forall i :: 0 <= i < |w| ==> 'a' <= w[i] <= 'z'
  }

  /** A name ending in `.` and a lower-case word (in any case) has that word after its last `.`. */
  lemma SuffixGivesExtension(filename: string, ext: string)
    requires IsLowerWord(ext)
    requires EndsWithIgnoringCase(filename, "." + ext)
    ensures '.' in filename && AsciiLower(AfterLast(filename, '.').value) == ext
  {
    var n, m := |filename|, |ext|;
    var head, tail := filename[..n - m - 1], filename[n - m..];
    var low := AsciiLower(filename[n - m - 1..]);
    assert low == "." + ext;
    assert filename[n - m - 1] == '.' by {
      assert low[0] == LowerChar(filename[n - m - 1]);
    }
    assert '.' !in tail by {
      forall k | 0 <= k < m ensures tail[k] != '.' {
        assert low[k + 1] == ext[k] && low[k + 1] == LowerChar(tail[k]);
      }
    }
    assert AsciiLower(tail) == ext by {
      forall k | 0 <= k < m ensures AsciiLower(tail)[k] == ext[k] {
        assert low[k + 1] == LowerChar(tail[k]);
      }
    }
    assert filename == head + ['.'] + tail;
    AfterLastOfSuffix(head, '.', tail);
  }

  /** A name holding a `.` ends, case aside, in `.` and its lower-cased extension. */
  lemma ExtensionGivesSuffix(filename: string)
    requires '.' in filename
    ensures EndsWithIgnoringCase(filename, "." + AsciiLower(AfterLast(filename, '.').value))
  {
    var tail := AfterLast(filename, '.').value;
    var n, m := |filename|, |tail|;
    assert filename[n - m - 1..] == ['.'] + tail;
    assert AsciiLower(filename[n - m - 1..]) == "." + AsciiLower(tail);
  }

  lemma AllowedSuffixIsImageSuffix(filename: string, ext: string)
    requires IsAllowedExtension(ext) && EndsWithIgnoringCase(filename, "." + ext)
    ensures HasImageSuffix(filename)
  {
    if ext == "png" {
      assert "." + ext == ".png";
    } else if ext == "jpg" {
      assert "." + ext == ".jpg";
    } else if ext == "jpeg" {
      assert "." + ext == ".jpeg";
    } else {
      assert "." + ext == ".gif";
    }
  }

  lemma AllowedGivesImageSuffix(filename: string)
    requires IsAllowedFilename(filename)
    ensures HasImageSuffix(filename)
  {
    ExtensionGivesSuffix(filename);
    AllowedSuffixIsImageSuffix(filename, AsciiLower(AfterLast(filename, '.').value));
  }

  lemma ImageSuffixIsAllowed(filename: string, ext: string)
    requires IsAllowedExtension(ext) && EndsWithIgnoringCase(filename, "." + ext)
    ensures IsAllowedFilename(filename)
  {
    SuffixGivesExtension(filename, ext);
  }

  lemma ImageSuffixGivesAllowed(filename: string)
    requires HasImageSuffix(filename)
    ensures IsAllowedFilename(filename)
  {
    var ext := if EndsWithIgnoringCase(filename, ".png") then "png"
      else if EndsWithIgnoringCase(filename, ".jpg") then "jpg"
      else if EndsWithIgnoringCase(filename, ".jpeg") then "jpeg"
      else "gif";
    assert EndsWithIgnoringCase(filename, "." + ext);
    ImageSuffixIsAllowed(filename, ext);
  }

  /** The source's filter keeps exactly the names with an image suffix. */
  lemma AllowedIffImageSuffix(filename: string)
    ensures IsAllowedFilename(filename) <==> HasImageSuffix(filename)
  {
    if IsAllowedFilename(filename) {
      AllowedGivesImageSuffix(filename);
    }
    if HasImageSuffix(filename) {
      ImageSuffixGivesAllowed(filename);
    }
  }

  /** The reference kept on the record for one upload slot (`birthImage` with role `photo`,
      `idCard` with role `id`): the name `{id}_{role}_{filename}` handed to the file store when the
      file is kept, None when no file came or its name fails the filter, and no error either way. */
  function StoredUploadName(upload: Option<string>, certificateId: string, role: string): (r: Option<string>)
    ensures r.Some? <==> upload.Some? && HasImageSuffix(upload.value)
    ensures r.Some? ==> StartsWith(r.value, certificateId + "_" + role + "_") && EndsWith(r.value, upload.value)
  {
    match upload
    case None => None
    case Some(filename) =>
      AllowedIffImageSuffix(filename);
      if filename != [] && IsAllowedFilename(filename) then
        var name := certificateId + "_" + role + "_" + filename;
        assert name[..|certificateId + "_" + role + "_"|] == certificateId + "_" + role + "_";
        assert name[|name| - |filename|..] == filename;
        Some(name)
      else
        None
  }

  /** A double extension is judged by its last part, in any case. */
  lemma DoubleExtensionKept(certificateId: string)
    ensures StoredUploadName(Some("a.tar.PNG"), certificateId, "photo").Some?
  {
    AfterLastOfSuffix("a.tar", '.', "PNG");
    assert "a.tar.PNG" == "a.tar" + ['.'] + "PNG";
    assert AsciiLower("PNG") == "png";
  }

  /** A bare extension without a dot is skipped. */
  lemma BareWordSkipped(certificateId: string)
    ensures StoredUploadName(Some("png"), certificateId, "photo") == None
  {
    assert '.' !in "png";
  }

  /** A name ending in a dot has an empty extension and is skipped. */
  lemma TrailingDotSkipped(certificateId: string)
    ensures StoredUploadName(Some("a."), certificateId, "id") == None
  {
    AfterLastOfSuffix("a", '.', "");
    assert "a." == "a" + ['.'] + "";
  }

  /** Any other extension is skipped. */
  lemma OtherExtensionSkipped(certificateId: string)
    ensures StoredUploadName(Some("scan.pdf"), certificateId, "id") == None
  {
    AfterLastOfSuffix("scan", '.', "pdf");
    assert "scan.pdf" == "scan" + ['.'] + "pdf";
    assert AsciiLower("pdf") == "pdf";
  }
}
