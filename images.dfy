/** The image directory: content-addressed names, saveImage as a write into
    the directory, and getImg's choice of the file to serve. The directory is
    a map from file name (inside images/) to the file's bytes. */
module Images {
  import opened Types

  const ImgDir: string := "images"
  const JpgSuffix: string := ".jpg"
  const DefaultImage: string := "default.jpg"
  const DefaultImagePath: string := ImgDir + "/" + DefaultImage

  predicate HasSuffix(s: string, suffix: string) {
    |suffix| <= |s| && s[|s| - |suffix|..] == suffix
  }

  /** The name an upload is stored under: the hex digest of its bytes followed
      by ".jpg". `digest` stands for hex.EncodeToString(sha256(data)). */
  function ImageName(digest: Bytes -> string, data: Bytes): (r: string)
    ensures HasSuffix(r, JpgSuffix) && r[..|r| - |JpgSuffix|] == digest(data)
  {
    digest(data) + JpgSuffix
  }

  /** How a call of saveImage ends. A failure to open the upload or to create
      the file leaves the directory alone; a failure while copying leaves the
      file truncated by os.Create holding the first `copied` bytes. */
  datatype SaveFault = NoFault | OpenFails | CreateFails | CopyFails(copied: nat)

  /** saveImage(file, images/<name>): whether it succeeded, and the directory
      afterwards. An existing file is truncated and rewritten, never skipped. */
  function SaveImage(images: map<string, Bytes>, name: string, data: Bytes, fault: SaveFault)
    : (r: (bool, map<string, Bytes>))
    ensures r.0 <==> fault == NoFault
    ensures r.0 ==> name in r.1 && r.1[name] == data
    ensures fault.CopyFails? ==> name in r.1 && r.1[name] == data[..if fault.copied < |data| then fault.copied else |data|]
    ensures fault.OpenFails? || fault.CreateFails? ==> r.1 == images
    ensures forall n :: n != name ==> (n in r.1 <==> n in images)
    ensures forall n :: n != name && n in images ==> r.1[n] == images[n]
  {
    match fault
    case NoFault => (true, images[name := data])
    case OpenFails => (false, images)
    case CreateFails => (false, images)
    case CopyFails(copied) =>
      (false, images[name := data[..if copied < |data| then copied else |data|]])
  }

  /** Saving the bytes a file already holds leaves the directory unchanged. */
  lemma SaveSameBytesUnchanged(images: map<string, Bytes>, name: string, data: Bytes)
    requires name in images && images[name] == data
    ensures SaveImage(images, name, data, NoFault) == (true, images)
  {
    assert images[name := data] == images;
  }

  /** Names for which path.Join(ImgDir, name) is a directory (images/ itself
      or its parent) rather than a file inside images/. A multipart upload's
      file name is already reduced to its last path element, so "/" is the
      only such name that holds a '/'. */
  predicate NamesDirectory(name: string) {
    name == "" || name == "." || name == ".." || name == "/"
  }

  /** path.Join(ImgDir, name) for a name that is a single path segment: a
      file inside images/, or a directory for the names above. The file keeps
      its suffix. */
  function JoinImgDir(name: string): (r: string)
    ensures NamesDirectory(name) ==> r == ImgDir || r == "."
    ensures !NamesDirectory(name) ==>
      |r| > |ImgDir| && r[..|ImgDir| + 1] == ImgDir + "/" && r[|ImgDir| + 1..] == name
    ensures HasSuffix(r, JpgSuffix) <==> HasSuffix(name, JpgSuffix)
  {
    var r := if name == "" || name == "." || name == "/" then ImgDir
      else if name == ".." then "."
      else ImgDir + "/" + name;
    assert HasSuffix(r, JpgSuffix) <==> HasSuffix(name, JpgSuffix) by {
      if r == ImgDir + "/" + name {
        if |name| >= |JpgSuffix| {
          assert r[|r| - 4..] == name[|name| - 4..];
        } else {
          assert r[|r| - 4] == (ImgDir + "/")[3 + |name|] != '.';
        }
      } else {
        assert r == ImgDir || r == ".";
        assert r == ImgDir ==> r[|r| - 4] == 'a';
      }
    }
    r
  }

  /** How saveImage(file, path.Join(ImgDir, name)) ends given how its calls
      would end on a file path: the upload is opened first, and os.Create
      then fails on a directory path. */
  function UploadFault(name: string, fault: SaveFault): (r: SaveFault)
    ensures r.OpenFails? <==> fault.OpenFails?
    ensures NamesDirectory(name) ==> r.OpenFails? || r.CreateFails?
    ensures !NamesDirectory(name) ==> r == fault
  {
    if NamesDirectory(name) && !fault.OpenFails? then CreateFails else fault
  }

  /** getImg: the path to serve for a requested image name. */
  function ResolveImagePath(images: map<string, Bytes>, name: string): (r: Result<string>)
    ensures r.Err? <==> !HasSuffix(name, JpgSuffix)
    ensures r.Err? ==> r.error == ImagePath
    ensures r.Ok? && name in images ==> r.value == ImgDir + "/" + name
    ensures r.Ok? && name !in images ==> r.value == DefaultImagePath
    ensures r.Ok? ==> HasSuffix(r.value, JpgSuffix)
  {
    var path := JoinImgDir(name);
    if !HasSuffix(path, JpgSuffix) then Err(ImagePath)
    else if name !in images then Ok(DefaultImagePath)
    else Ok(path)
  }
}
