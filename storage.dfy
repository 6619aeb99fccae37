/** `FileStorageService`: stores uploads under `uploads/<area>/<id>/<name>` and hands out
    `/uploads/...` URLs that are later decoded to find the file again. The disk is a map from
    normalised paths to contents; directories are implicit. */
module Storage {
  import opened Common
  import opened Text
  import Utf8
  import UrlCodec
  import opened Paths
  import opened Domain

  const UploadDir: Path := Path(false, ["uploads"])
  const UploadsPrefix: string := "/uploads/"
  const MaxNameLength: nat := 255
  const UnknownName: string := "unknown"

  /** The RuntimeException a failed write becomes. */
  function WriteFailed(msg: string): Error { Runtime("파일 저장 실패: " + msg) }

  /** Whose file it is: a document type's original form or a student's submission. */
  datatype Owner = DocTypeOwner(docType: DocTypeId) | SubmissionOwner(submission: SubmissionId) {
    function Area(): string {
      if DocTypeOwner? then "doctype" else "submissions"
    }
    function Id(): nat {
      if DocTypeOwner? then docType else submission
    }
    /** `uploadDir.resolve(area).resolve(String.valueOf(id))`. */
    function Dir(): Path {
      Path(false, ["uploads", Area(), NatToString(Id())])
    }
    /** `"/uploads/" + area + "/" + id + "/"`. */
    function UrlPrefix(): string {
      UploadsPrefix + Area() + "/" + NatToString(Id()) + "/"
    }
  }

  /** The name `saveInto` stores an upload under: the client name (or "unknown"), with
      backslashes read as slashes, cut to its last segment, "unknown" if that is blank, and
      cut to its last 255 characters. */
  function StoredName(original: Option<string>): (r: string)
    ensures r != [] && |r| <= MaxNameLength
    ensures '/' !in r && '\\' !in r
    ensures var seg := LastSegment(original);
      if IsBlank(seg) then r == UnknownName else EndsWith(seg, r) && (|seg| <= MaxNameLength ==> r == seg)
    ensures var seg := LastSegment(original);
      !IsBlank(seg) ==> |r| == if |seg| <= MaxNameLength then |seg| else MaxNameLength
  {
    Shorten(LastSegment(original))
  }

  /** "unknown" for a blank name, otherwise its last 255 characters. */
  function Shorten(seg: string): (r: string)
    ensures r != [] && |r| <= MaxNameLength
    ensures '/' !in seg && '\\' !in seg ==> '/' !in r && '\\' !in r
    ensures if IsBlank(seg) then r == UnknownName else EndsWith(seg, r) && (|seg| <= MaxNameLength ==> r == seg)
    ensures !IsBlank(seg) ==> |r| == if |seg| <= MaxNameLength then |seg| else MaxNameLength
  {
    if IsBlank(seg) then UnknownName
    else if |seg| > MaxNameLength then
      SuffixOmits(seg, |seg| - MaxNameLength);
      seg[|seg| - MaxNameLength..]
    else seg
  }

  /** The part of the client name after its last '/' or '\'. */
  function LastSegment(original: Option<string>): (r: string)
    ensures '/' !in r && '\\' !in r
  {
    var raw := match original case None => UnknownName case Some(s) => s;
    var slashed := ReplaceChar(raw, '\\', '/');
    var seg := AfterLast(slashed, '/');
    SuffixOmits(slashed, |slashed| - |seg|);
    seg
  }

  /** A suffix holds no separator its whole string lacks. */
  lemma SuffixOmits(s: string, n: nat)
    requires n <= |s|
    ensures '/' !in s ==> '/' !in s[n..]
    ensures '\\' !in s ==> '\\' !in s[n..]
  {
    assert forall i :: 0 <= i < |s| - n ==> s[n..][i] == s[n + i];
  }

  /** Where `saveInto` writes a name inside `dir`, or the exception it raises first:
      an InvalidPathException for a NUL character, a SecurityException when the
      normalised target leaves `dir`. */
  function SaveTarget(dir: Path, name: string): Result<Path> {
    var p :- Parse(name);
    var target := Normalize(Resolve(dir, p));
    if !StartsWithPath(target, dir) then Err(Security("Invalid path")) else Ok(target)
  }

  /** The path a `/uploads/...` URL designates: the rest of the URL is percent-decoded,
      parsed, resolved against `uploads` and normalised. Decoding and parsing errors are
      the IllegalArgumentExceptions of `URLDecoder` and `Paths`. */
  function Locate(url: string): Result<Path>
    requires StartsWith(url, UploadsPrefix)
  {
    var relative :- UrlCodec.Decode(url[|UploadsPrefix|..]);
    var p :- Parse(relative);
    Ok(Normalize(Resolve(UploadDir, p)))
  }

  /** `getFilename`: the decoded text after the last '/', the raw text when decoding fails,
      "upload.bin" for null. */
  function GetFilename(url: Option<string>): (r: string)
    ensures url.None? ==> r == "upload.bin"
    ensures url.Some? ==> var enc := AfterLast(url.value, '/');
      (UrlCodec.Decode(enc).Ok? ==> r == UrlCodec.Decode(enc).value) && (UrlCodec.Decode(enc).Err? ==> r == enc)
  {
    match url
    case None => "upload.bin"
    case Some(u) =>
      var enc := AfterLast(u, '/');
      match UrlCodec.Decode(enc)
      case Ok(d) => d
      case Err(_) => enc
  }

  /** The files under the upload directory, by normalised path. */
  type Disk = map<Path, seq<Utf8.Byte>>

  class FileStore {
    var disk: Disk

    constructor (initial: Disk)
      ensures disk == initial
    {
      disk := initial;
    }

    /** `saveInto`: sanitises the client name (see `StoredName`), refuses a target outside `dir`,
        writes the bytes (replacing any file already there) and returns `urlPrefix` followed
        by the encoded name. `writeError` is the message of an IOException from creating the
        directory or from the copy; it is consulted after the path guard. */
    method SaveInto(dir: Path, urlPrefix: string, file: Upload, writeError: Option<string>) returns (r: Result<string>)
      modifies this
      ensures var target := SaveTarget(dir, StoredName(file.originalFilename));
        target.Err? ==> r == Err(target.error) && disk == old(disk)
      ensures var target := SaveTarget(dir, StoredName(file.originalFilename));
        target.Ok? && writeError.Some? ==> r == Err(WriteFailed(writeError.value)) && disk == old(disk)
      ensures var name := StoredName(file.originalFilename);
        var target := SaveTarget(dir, name);
        target.Ok? && writeError.None? ==>
          r == Ok(urlPrefix + UrlCodec.EncodeName(name)) && disk == old(disk)[target.value := file.content]
    {
      var original := StoredName(file.originalFilename);
      var parsed := Parse(original);
      if parsed.Err? {
        return Err(parsed.error);
      }
      var target := Normalize(Resolve(dir, parsed.value));
      if !StartsWithPath(target, dir) {
        return Err(Security("Invalid path"));
      }
      assert SaveTarget(dir, original) == Ok(target);
      if writeError.Some? {
        return Err(WriteFailed(writeError.value));
      }
      ghost var before := disk;
      disk := disk[target := file.content];
      assert disk == before[SaveTarget(dir, StoredName(file.originalFilename)).value := file.content];

      var encoded := UrlCodec.PlusAsEscape(UrlCodec.JavaEncode(original));
      return Ok(urlPrefix + encoded);
    }

    /** `save` / `saveSubmission`: `saveInto` the owner's directory. */
    method SaveFor(owner: Owner, file: Upload, writeError: Option<string>) returns (r: Result<string>)
      modifies this
      ensures var name := StoredName(file.originalFilename);
        match SaveTarget(owner.Dir(), name)
        case Err(e) => r == Err(e) && disk == old(disk)
        case Ok(target) =>
          if writeError.Some? then
            r == Err(WriteFailed(writeError.value)) && disk == old(disk)
          else
            r == Ok(owner.UrlPrefix() + UrlCodec.EncodeName(name)) && disk == old(disk)[target := file.content]
    {
      r := SaveInto(owner.Dir(), owner.UrlPrefix(), file, writeError);
    }

    /** `deleteByUrl`: nothing for null, for a URL outside "/uploads/" or for a path that
        leaves `uploads`; otherwise the file is removed if present. A decoding or path error
        propagates; I/O errors are swallowed. */
    method DeleteByUrl(url: Option<string>) returns (r: Result<()>)
      modifies this
      ensures url.None? || !StartsWith(url.value, UploadsPrefix) ==> r == Ok(()) && disk == old(disk)
      ensures url.Some? && StartsWith(url.value, UploadsPrefix) ==>
        match Locate(url.value)
        case Err(e) => r == Err(e) && disk == old(disk)
        case Ok(target) =>
          r == Ok(()) && disk == (if StartsWithPath(target, UploadDir) then old(disk) - {target} else old(disk))
      ensures disk == AfterDelete(old(disk), url)
      ensures r == DeleteOutcome(url)
    {
      if url.None? || !StartsWith(url.value, UploadsPrefix) {
        return Ok(());
      }
      var relative := UrlCodec.Decode(url.value[|UploadsPrefix|..]);
      if relative.Err? {
        return Err(relative.error);
      }
      var parsed := Parse(relative.value);
      if parsed.Err? {
        return Err(parsed.error);
      }
      var target := Normalize(Resolve(UploadDir, parsed.value));
      if !StartsWithPath(target, UploadDir) {
        return Ok(());
      }
      disk := disk - {target};
      return Ok(());
    }
  }

  /** The file `deleteByUrl(url)` removes, if any. */
  function DeleteTarget(url: Option<string>): (r: Option<Path>)
    ensures r.Some? ==> url.Some? && StartsWith(url.value, UploadsPrefix) && Locate(url.value) == Ok(r.value)
    ensures r.Some? ==> StartsWithPath(r.value, UploadDir)
  {
    if url.None? || !StartsWith(url.value, UploadsPrefix) then None
    else match Locate(url.value)
      case Err(_) => None
      case Ok(target) => if StartsWithPath(target, UploadDir) then Some(target) else None
  }

  /** Whether `deleteByUrl(url)` returns or throws: only a URL under "/uploads/" whose rest
      fails to decode or parse throws. */
  function DeleteOutcome(url: Option<string>): (r: Result<()>)
    ensures r.Err? ==> url.Some? && StartsWith(url.value, UploadsPrefix) && Locate(url.value) == Err(r.error)
    ensures DeleteTarget(url).Some? ==> r.Ok?
  {
    if url.None? || !StartsWith(url.value, UploadsPrefix) then Ok(())
    else match Locate(url.value)
      case Err(e) => Err(e)
      case Ok(_) => Ok(())
  }

  /** The files left after `deleteByUrl(url)`; a call that throws leaves them all. */
  function AfterDelete(disk: Disk, url: Option<string>): (r: Disk)
    ensures r.Keys <= disk.Keys
    ensures forall p :: p in r ==> r[p] == disk[p]
    ensures DeleteTarget(url).None? ==> r == disk
    ensures DeleteTarget(url).Some? ==> DeleteTarget(url).value !in r
  {
    match DeleteTarget(url)
    case None => disk
    case Some(target) => disk - {target}
  }

  /** The URL `saveInto` returns for an upload. */
  function SavedUrl(owner: Owner, original: Option<string>): string {
    owner.UrlPrefix() + UrlCodec.EncodeName(StoredName(original))
  }

  /** Replacing an owner's single file as the services do: the new file is written, then
      the file of the previous URL is deleted — even when it is the file just written. */
  function ReplacedAsWritten(disk: Disk, target: Path, content: seq<Utf8.Byte>, previous: Option<string>): Disk {
    AfterDelete(disk[target := content], previous)
  }

  /** Replacing an owner's single file: the previous file is deleted only when it is not the
      file just written. */
  function Replaced(disk: Disk, target: Path, content: seq<Utf8.Byte>, previous: Option<string>): Disk {
    if DeleteTarget(previous) == Some(target) then disk[target := content]
    else AfterDelete(disk[target := content], previous)
  }

  /** The corrected replacement differs from the one as written only when the previous URL
      designates the file just written. */
  lemma ReplacedAgrees(disk: Disk, target: Path, content: seq<Utf8.Byte>, previous: Option<string>)
    ensures DeleteTarget(previous) != Some(target) <==>
      Replaced(disk, target, content, previous) == ReplacedAsWritten(disk, target, content, previous)
  {
    if DeleteTarget(previous) == Some(target) {
      assert target in Replaced(disk, target, content, previous);
      assert target !in ReplacedAsWritten(disk, target, content, previous);
    }
  }

  /** `readBytes`, on the files present: the stored bytes, or a FileReadException for a URL
      outside "/uploads/", for a path that leaves `uploads` and for a missing file; decoding
      and path errors propagate as they are. */
  function ReadBytes(disk: Disk, url: Option<string>): (r: Result<seq<Utf8.Byte>>)
    ensures r.Ok? <==>
      && url.Some? && StartsWith(url.value, UploadsPrefix) && Locate(url.value).Ok?
      && StartsWithPath(Locate(url.value).value, UploadDir) && Locate(url.value).value in disk
    ensures r.Ok? ==> r.value == disk[Locate(url.value).value]
    ensures url.None? || !StartsWith(url.value, UploadsPrefix) ==> r.Err? && r.error.FileRead?
  {
    if url.None? then Err(BadUrl("null"))
    else if !StartsWith(url.value, UploadsPrefix) then Err(BadUrl(url.value))
    else
      var target :- Locate(url.value);
      if !StartsWithPath(target, UploadDir) then Err(Traversal)
      else if target !in disk then Err(ReadFailed(target))
      else Ok(disk[target])
  }

  /** The FileReadException messages of `readBytes`. */
  function BadUrl(url: string): Error { FileRead("잘못된 파일 URL: " + url) }
  const Traversal: Error := FileRead("Invalid path traversal")
  function ReadFailed(target: Path): Error { FileRead("파일 읽기 실패: " + PathString(target)) }

  // ---------------------------------------------------------------- lemmas

  lemma DigitsArePlainName(n: nat)
    ensures var s := NatToString(n);
      s != [] && '/' !in s && '\0' !in s && '%' !in s && '+' !in s && Plain(s)
  {
    var s := NatToString(n);
    assert s[0] in s && IsDigit(s[0]);
    forall c | c in s ensures IsDigit(c) {
    }
  }

  /** An owner's directory is `uploads/<area>/<id>`, three plain names free of '/', NUL,
      '%' and '+'. */
  lemma OwnerDirPlain(owner: Owner)
    ensures StartsWithPath(owner.Dir(), UploadDir) && |owner.Dir().names| == 3
    ensures forall i :: 0 <= i < 3 ==> var n := owner.Dir().names[i];
      n != [] && Plain(n) && '/' !in n && '\0' !in n && '%' !in n && '+' !in n
  {
    DigitsArePlainName(owner.Id());
    var a := owner.Area();
    assert a == "doctype" || a == "submissions";
    assert a != [] && Plain(a) && '/' !in a && '\0' !in a && '%' !in a && '+' !in a;
    assert "uploads" != [] && Plain("uploads") && '/' !in "uploads" && '\0' !in "uploads";
  }

  /** The path guard of `saveInto`: a stored name lands directly inside the owner's
      directory (or on the directory itself for "."), and is refused exactly when it is ".."
      or holds a NUL character. */
  lemma SaveTargetConfined(owner: Owner, original: Option<string>)
    ensures var name := StoredName(original);
      && (SaveTarget(owner.Dir(), name).Err? <==> name == ".." || '\0' in name)
      && (name == ".." && '\0' !in name ==> SaveTarget(owner.Dir(), name) == Err(Security("Invalid path")))
      && (SaveTarget(owner.Dir(), name).Ok? ==>
            var t := SaveTarget(owner.Dir(), name).value;
            StartsWithPath(t, owner.Dir()) && StartsWithPath(t, UploadDir)
            && (Plain(name) ==> t == Path(false, owner.Dir().names + [name]))
            && (name == "." ==> t == owner.Dir()))
  {
    var name := StoredName(original);
    var dir := owner.Dir();
    OwnerDirPlain(owner);
    if '\0' !in name {
      ParseOneName(name);
      ResolveNameConfined(dir, name);
      var t := Normalize(Resolve(dir, Path(false, [name])));
      if StartsWithPath(t, dir) {
        StartsWithTrans(t, dir, UploadDir);
      }
    }
  }

  /** The part of an owner's URL after "/uploads/", before the encoded name. */
  function OwnerRelative(owner: Owner): string {
    owner.Area() + "/" + NatToString(owner.Id()) + "/"
  }

  lemma DecodeSavedRest(owner: Owner, name: string)
    ensures var url := owner.UrlPrefix() + UrlCodec.EncodeName(name);
      StartsWith(url, UploadsPrefix)
      && url[|UploadsPrefix|..] == OwnerRelative(owner) + UrlCodec.EncodeName(name)
      && UrlCodec.Decode(url[|UploadsPrefix|..]) == Ok(OwnerRelative(owner) + name)
  {
    var enc := UrlCodec.EncodeName(name);
    SavedUrlShape(owner, enc);
    UrlCodec.DecodeEncodeName(name);
    UrlCodec.DecodePlainPrefix(OwnerRelative(owner), enc);
  }

  /** A URL under an owner's prefix: "/uploads/" and then the owner's relative directory,
      which holds no '%' or '+'. */
  lemma SavedUrlShape(owner: Owner, enc: string)
    ensures var url := owner.UrlPrefix() + enc;
      StartsWith(url, UploadsPrefix) && url[|UploadsPrefix|..] == OwnerRelative(owner) + enc
      && '%' !in OwnerRelative(owner) && '+' !in OwnerRelative(owner)
  {
    OwnerDirPlain(owner);
    var plain := OwnerRelative(owner);
    var url := owner.UrlPrefix() + enc;
    assert url == UploadsPrefix + (plain + enc);
    assert '%' !in plain && '+' !in plain by {
      assert owner.Dir().names[1] == owner.Area() && owner.Dir().names[2] == NatToString(owner.Id());
    }
  }

  lemma ParseSavedRest(owner: Owner, name: string)
    requires name != [] && '/' !in name && '\0' !in name
    ensures Parse(OwnerRelative(owner) + name) == Ok(Path(false, owner.Dir().names[1..] + [name]))
  {
    OwnerDirPlain(owner);
    var names := owner.Dir().names[1..] + [name];
    assert names == [owner.Area(), NatToString(owner.Id()), name];
    assert JoinWith(names, '/') == OwnerRelative(owner) + name by {
      assert names[2..] == [name];
      assert names[1..] == [NatToString(owner.Id()), name];
      assert JoinWith(names[2..], '/') == name;
      assert JoinWith(names[1..], '/') == NatToString(owner.Id()) + "/" + name;
    }
    assert forall i :: 0 <= i < 2 ==> names[i] == owner.Dir().names[i + 1];
    ParseJoined(names);
  }

  /** Round trip of the URL scheme: decoding the URL that `saveInto` returns for an owner
      finds exactly the path it wrote. */
  lemma LocateSavedUrl(owner: Owner, name: string)
    requires name != [] && '/' !in name && '\0' !in name
    requires SaveTarget(owner.Dir(), name).Ok?
    ensures var url := owner.UrlPrefix() + UrlCodec.EncodeName(name);
      StartsWith(url, UploadsPrefix) && Locate(url) == SaveTarget(owner.Dir(), name)
  {
    var url := owner.UrlPrefix() + UrlCodec.EncodeName(name);
    DecodeSavedRest(owner, name);
    ParseSavedRest(owner, name);
    ParseOneName(name);
    var dir := owner.Dir();
    assert dir.names == UploadDir.names + dir.names[1..];
    assert Resolve(UploadDir, Path(false, dir.names[1..] + [name])) == Resolve(dir, Path(false, [name]));
  }

  /** Reading back through the returned URL after a successful save gives the bytes written. */
  lemma ReadAfterSave(owner: Owner, original: Option<string>, content: seq<Utf8.Byte>, disk: Disk)
    requires SaveTarget(owner.Dir(), StoredName(original)).Ok?
    ensures var name := StoredName(original);
      var target := SaveTarget(owner.Dir(), name).value;
      var url := owner.UrlPrefix() + UrlCodec.EncodeName(name);
      ReadBytes(disk[target := content], Some(url)) == Ok(content)
  {
    var name := StoredName(original);
    var target := SaveTarget(owner.Dir(), name).value;
    var url := owner.UrlPrefix() + UrlCodec.EncodeName(name);
    assert StartsWithPath(target, UploadDir) by {
      SaveTargetConfined(owner, original);
    }
    assert StartsWith(url, UploadsPrefix) && Locate(url) == Ok(target) by {
      LocateSavedUrl(owner, name);
    }
    ReadLocated(disk[target := content], url, target);
  }

  lemma ReadLocated(disk: Disk, url: string, target: Path)
    requires StartsWith(url, UploadsPrefix) && Locate(url) == Ok(target)
    requires StartsWithPath(target, UploadDir) && target in disk
    ensures ReadBytes(disk, Some(url)) == Ok(disk[target])
  {
  }

  /** `getFilename` on a '/'-terminated prefix followed by an encoded name gives the name. */
  lemma FilenameOfEncoded(p: string, name: string)
    requires p != [] && p[|p| - 1] == '/'
    ensures GetFilename(Some(p + UrlCodec.EncodeName(name))) == name
  {
    var enc := UrlCodec.EncodeName(name);
    var url := p + enc;
    UrlCodec.EncodeNameAlphabet(name);
    assert '/' !in enc by {
      forall i | 0 <= i < |enc| ensures enc[i] != '/' {
        assert UrlCodec.IsUnreserved(enc[i]) || enc[i] == '%';
      }
    }
    AfterLastAppend(p, enc, '/');
    UrlCodec.DecodeEncodeName(name);
  }

  /** `getFilename` on a URL that `saveInto` returned gives back the stored name. */
  lemma FilenameOfSavedUrl(owner: Owner, name: string)
    ensures GetFilename(Some(owner.UrlPrefix() + UrlCodec.EncodeName(name))) == name
  {
    FilenameOfEncoded(owner.UrlPrefix(), name);
  }

  /** The URL of a saved file designates the file written. */
  lemma DeleteTargetOfSaved(owner: Owner, original: Option<string>)
    requires SaveTarget(owner.Dir(), StoredName(original)).Ok?
    ensures DeleteTarget(Some(SavedUrl(owner, original))) == Some(SaveTarget(owner.Dir(), StoredName(original)).value)
  {
    var name := StoredName(original);
    SaveTargetConfined(owner, original);
    LocateSavedUrl(owner, name);
  }

  /** As written, uploading again a file whose stored name is unchanged loses the file:
      its URL is the previous URL, and the deletion removes what was just written. */
  lemma ReuploadLosesFile(owner: Owner, original: Option<string>, content: seq<Utf8.Byte>, disk: Disk)
    requires SaveTarget(owner.Dir(), StoredName(original)).Ok?
    ensures var target := SaveTarget(owner.Dir(), StoredName(original)).value;
      var url := SavedUrl(owner, original);
      ReadBytes(ReplacedAsWritten(disk, target, content, Some(url)), Some(url)).Err?
  {
    var target := SaveTarget(owner.Dir(), StoredName(original)).value;
    DeleteTargetOfSaved(owner, original);
  }

  /** Without a previous URL a replacement only writes the new file. */
  lemma ReplacedFresh(disk: Disk, target: Path, content: seq<Utf8.Byte>)
    ensures Replaced(disk, target, content, None) == disk[target := content]
  {
  }

  /** A replacement holds the new bytes at the target and keeps every file other than the
      target and the previous one. */
  lemma ReplacedHolds(disk: Disk, target: Path, content: seq<Utf8.Byte>, previous: Option<string>)
    ensures var after := Replaced(disk, target, content, previous);
      && target in after && after[target] == content
      && (forall p :: p in disk && p != target && Some(p) != DeleteTarget(previous) ==> p in after && after[p] == disk[p])
  {
  }

  /** After a replacement the returned URL reads back the uploaded bytes, whatever the
      previous URL was. */
  lemma ReplacedReadsBack(owner: Owner, original: Option<string>, content: seq<Utf8.Byte>, disk: Disk,
                          previous: Option<string>)
    requires SaveTarget(owner.Dir(), StoredName(original)).Ok?
    ensures var target := SaveTarget(owner.Dir(), StoredName(original)).value;
      ReadBytes(Replaced(disk, target, content, previous), Some(SavedUrl(owner, original))) == Ok(content)
  {
    var name := StoredName(original);
    var target := SaveTarget(owner.Dir(), name).value;
    var url := SavedUrl(owner, original);
    var after := Replaced(disk, target, content, previous);
    assert target in after && after[target] == content by {
      ReplacedHolds(disk, target, content, previous);
    }
    assert StartsWithPath(target, UploadDir) by {
      SaveTargetConfined(owner, original);
    }
    assert StartsWith(url, UploadsPrefix) && Locate(url) == Ok(target) by {
      LocateSavedUrl(owner, name);
    }
    ReadLocated(after, url, target);
  }
}
