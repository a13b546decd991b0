/**
 * The decisions of `src/lib/decompression.ts`: which extractor an upload goes
 * to, what the submission row is updated with afterwards, how a zip entry is
 * handled, which directory becomes the extracted root, and whether the
 * submitter is a tester. The file system and the archive libraries are not
 * modelled; an extractor is a function from the format to its failure, if any.
 */
module Decompression {
  import opened Results
  import opened Strings

  // ---------------------------------------------------------------------------
  // decompressSubmission
  // ---------------------------------------------------------------------------

  /** `upload_name.slice(upload_name.lastIndexOf('.') + 1)`: the whole name when it has no dot. */
  function FileExtension(uploadName: string): (ext: string)
    ensures '.' !in ext
    ensures '.' !in uploadName ==> ext == uploadName
    ensures '.' in uploadName ==> |ext| < |uploadName| && uploadName == uploadName[..|uploadName| - |ext| - 1] + "." + ext
  {
    var dot := LastIndexOf(uploadName, '.');
    AfterLastDot(uploadName, dot);
    uploadName[dot + 1..]
  }

  lemma AfterLastDot(s: string, dot: int)
    requires -1 <= dot < |s|
    requires dot >= 0 ==> s[dot] == '.'
    requires forall j :: dot < j < |s| ==> s[j] != '.'
    ensures '.' !in s[dot + 1..]
    ensures dot == -1 <==> '.' !in s
    ensures dot >= 0 ==> s == s[..dot] + "." + s[dot + 1..]
  {
    var ext := s[dot + 1..];
    forall k | 0 <= k < |ext|
      ensures ext[k] != '.'
    {
      assert ext[k] == s[dot + 1 + k];
    }
    if dot >= 0 {
      assert s == s[..dot] + "." + ext;
    }
  }

  /** The extension of `base.ext` is `ext` whenever `ext` has no dot, whatever `base` holds. */
  lemma {:induction false} ExtensionOfName(base: string, ext: string)
    requires '.' !in ext
    ensures FileExtension(base + "." + ext) == ext
  {
    var name := base + "." + ext;
    assert name[|base|] == '.';
    assert name[|base| + 1..] == ext;
  }

  datatype Format = Zip | Rar

  /** The `switch (fileExtension)`: zip and rar archives are extracted, anything else is refused. */
  function ArchiveFormat(ext: string): (r: Result<Format>)
    ensures r == Ok(Zip) <==> ext == "zip"
    ensures r == Ok(Rar) <==> ext == "rar"
    ensures r.Err? ==> r.message == "Unsupported archive format"
  {
    if ext == "zip" then Ok(Zip)
    else if ext == "rar" then Ok(Rar)
    else Err("Unsupported archive format")
  }

  /**
   * How an extraction fails: with an `Error` object (a thrown exception), or
   * with the bare message string the zip callbacks pass to `reject`.
   */
  datatype ExtractFailure = ErrorObject(message: string) | Reason(text: string)

  /** `error.message` in the catch block: a bare string has no `message`. */
  function FailReason(e: ExtractFailure): Option<string>
  {
    match e
    case ErrorObject(message) => Some(message)
    case Reason(_) => None
  }

  /** The `UPDATE_DECOMPRESSION_RESULT_FOR_SUBMISSION` variables. */
  datatype DecompressionUpdate = DecompressionUpdate(id: nat, extractedPath: Option<string>, failReason: Option<string>)

  /** The row update that is sent, and the failure rethrown to the caller (`None` on success). */
  datatype Decompression = Decompression(update: DecompressionUpdate, failure: Option<ExtractFailure>)

  /** `extracted/<id>`: where a submission's files end up, relative to the shared mount. */
  function ExtractedPath(id: nat): string
  {
    "extracted/" + NatToString(id)
  }

  /**
   * `decompressSubmission`: dispatch on the extension, then record the outcome.
   * On success the row gets the extracted path and no reason; on any failure
   * it gets no path, the failure's message as reason, and the failure is
   * rethrown.
   */
  function Decompress(id: nat, uploadName: string, extract: Format -> Option<ExtractFailure>): (d: Decompression)
    ensures d.update.id == id
    ensures d.failure.None? <==> ArchiveFormat(FileExtension(uploadName)).Ok? && extract(ArchiveFormat(FileExtension(uploadName)).value).None?
    ensures d.failure.None? ==> d.update == DecompressionUpdate(id, Some(ExtractedPath(id)), None)
    ensures d.failure.Some? ==> d.update == DecompressionUpdate(id, None, FailReason(d.failure.value))
    ensures ArchiveFormat(FileExtension(uploadName)).Err? ==> d.failure == Some(ErrorObject("Unsupported archive format"))
  {
    match ArchiveFormat(FileExtension(uploadName))
    case Err(message) =>
      Decompression(DecompressionUpdate(id, None, Some(message)), Some(ErrorObject(message)))
    case Ok(format) =>
      match extract(format)
      case None => Decompression(DecompressionUpdate(id, Some(ExtractedPath(id)), None), None)
      case Some(e) => Decompression(DecompressionUpdate(id, None, FailReason(e)), Some(e))
  }

  /** A `.zip` or `.rar` upload goes to its own extractor, and its outcome is that extractor's. */
  lemma DispatchByExtension(id: nat, base: string, ext: string, extract: Format -> Option<ExtractFailure>)
    requires ext == "zip" || ext == "rar"
    ensures var format := if ext == "zip" then Zip else Rar;
      Decompress(id, base + "." + ext, extract).failure == extract(format)
  {
    ExtensionOfName(base, ext);
  }

  /** A failure passed to `reject` as a bare string leaves the row without a reason. */
  lemma StringRejectionLosesReason(id: nat, uploadName: string, extract: Format -> Option<ExtractFailure>)
    requires var d := Decompress(id, uploadName, extract); d.failure.Some? && d.failure.value.Reason?
    ensures Decompress(id, uploadName, extract).update == DecompressionUpdate(id, None, None)
  {
  }

  // ---------------------------------------------------------------------------
  // extractZip: one entry
  // ---------------------------------------------------------------------------

  /** The characters `.` in a JavaScript regular expression does not match. */
  predicate IsLineTerminator(c: char)
  {
    c == '\n' || c == '\r' || c == ' ' || c == ' '
  }

  /** `/.DS_Store/.test(name)`: "DS_Store" preceded by some character other than a line terminator. */
  predicate MatchesDsStore(name: string)
  {
    exists i | 1 <= i <= |name| :: OccursAt(name, "DS_Store", i) && !IsLineTerminator(name[i - 1])
  }

  /** The skip test of the entry handler. */
  predicate Skipped(name: string)
  {
    Contains(name, "__MACOSX") || MatchesDsStore(name)
  }

  /** What the entry handler does with one zip entry. */
  datatype EntryAction =
    | Skip
    | MakeFolder(folder: string)
    | WriteInFolder(folder: string, path: string)
    | WriteFile(path: string)

  /**
   * The entry handler: skipped names are passed over; a name whose first `/`
   * is its last character is a folder; any other name with a `/` is written
   * as a file after its parent folder (up to the last `/`) is made; a name
   * without `/` is written as a file.
   */
  function ClassifyEntry(name: string): (a: EntryAction)
    ensures a.Skip? <==> Skipped(name)
    ensures a.MakeFolder? ==> name == a.folder + "/" && '/' !in a.folder
    ensures a.WriteInFolder? ==>
      && a.path == name && |a.folder| < |name| && name[..|a.folder| + 1] == a.folder + "/"
      && '/' !in name[|a.folder| + 1..]
    ensures a.WriteFile? ==> a.path == name && '/' !in name
    ensures !Skipped(name) && '/' !in name ==> a.WriteFile?
  {
    if Skipped(name) then Skip
    else if Contains(name, "/") then
      var slash := LastIndexOf(name, '/');
      assert slash >= 0 by {
        var i := IndexOf(name, "/").value;
        assert name[i] == '/';
      }
      if IndexOf(name, "/") == Some(|name| - 1) then
        assert slash == |name| - 1;
        assert '/' !in name[..slash] by {
          forall j | 0 <= j < slash
            ensures name[j] != '/'
          {
            assert !OccursAt(name, "/", j);
          }
        }
        MakeFolder(name[..slash])
      else
        assert name[..slash + 1] == name[..slash] + "/";
        WriteInFolder(name[..slash], name)
    else
      assert '/' !in name by {
        forall j | 0 <= j < |name|
          ensures name[j] != '/'
        {
          assert !OccursAt(name, "/", j);
        }
      }
      WriteFile(name)
  }

  /**
   * A nested folder entry (`a/b/`) has its first `/` before its last
   * character, so the handler takes it for a file: it makes the folder `a/b`
   * and then opens a write stream on the path `a/b/` itself.
   */
  lemma NestedFolderTakenForFile()
    ensures ClassifyEntry("a/b/") == WriteInFolder("a/b", "a/b/")
  {
    assert !MatchesDsStore("a/b/");
    assert !Contains("a/b/", "__MACOSX");
    assert "a/b/"[0..1] == ['a'] && "a/b/"[1..2] == ['/'];
    assert !OccursAt("a/b/", "/", 0) && OccursAt("a/b/", "/", 1);
    assert IndexOfFrom("a/b/", "/", 1) == Some(1);
    assert Contains("a/b/", "/");
    assert LastIndexOf("a/b/", '/') == 3;
  }

  /**
   * The handling the folder branch is evidently meant to give: every entry
   * whose name ends in `/` is a folder, at any depth.
   */
  function ClassifyEntryIntended(name: string): (a: EntryAction)
    ensures a.Skip? <==> Skipped(name)
    ensures !Skipped(name) && |name| > 0 && name[|name| - 1] == '/' ==> a == MakeFolder(name[..|name| - 1])
    ensures a.WriteInFolder? ==> a.path == name && 0 < |name| && name[|name| - 1] != '/'
  {
    if !Skipped(name) && |name| > 0 && name[|name| - 1] == '/' then MakeFolder(name[..|name| - 1])
    else ClassifyEntry(name)
  }

  /** The intended handling agrees with the source on every entry except nested folders. */
  lemma IntendedAgreesOffNestedFolders(name: string)
    requires !(|name| > 0 && name[|name| - 1] == '/') || IndexOf(name, "/") == Some(|name| - 1)
    ensures ClassifyEntryIntended(name) == ClassifyEntry(name)
  {
  }

  // ---------------------------------------------------------------------------
  // The extracted root
  // ---------------------------------------------------------------------------

  /** One entry of the temporary directory listing. */
  datatype DirEntry = DirEntry(name: string, isDirectory: bool)

  /**
   * The directory moved to `extracted/<id>`: the single top-level entry when
   * the temporary directory holds exactly one entry and it is a directory,
   * otherwise the temporary directory itself.
   */
  function OutputRoot(tmp: string, entries: seq<DirEntry>): (root: string)
    ensures root == tmp || (|entries| == 1 && entries[0].isDirectory && root == tmp + "/" + entries[0].name)
    ensures |entries| == 1 && entries[0].isDirectory ==> root == tmp + "/" + entries[0].name
    ensures !(|entries| == 1 && entries[0].isDirectory) ==> root == tmp
  {
    if |entries| == 1 && entries[0].isDirectory then tmp + "/" + entries[0].name else tmp
  }

  // ---------------------------------------------------------------------------
  // getGradingPolicy
  // ---------------------------------------------------------------------------

  datatype GradingPolicy = GradingPolicy(gradeImmediately: bool, isTest: bool)

  /**
   * `getGradingPolicy`: from the permissions of the user's course rows (the
   * query returns only that user's rows). With no row, reading the permission
   * of an undefined user throws, the error is logged, and nothing is returned.
   */
  function PolicyOf(gradeImmediately: bool, permissions: seq<int>): (p: Option<GradingPolicy>)
    ensures p.Some? <==> |permissions| > 0
    ensures p.Some? ==> p.value.gradeImmediately == gradeImmediately
    ensures p.Some? ==> (p.value.isTest <==> permissions[0] > 1)
  {
    if |permissions| == 0 then None else Some(GradingPolicy(gradeImmediately, permissions[0] > 1))
  }
}
