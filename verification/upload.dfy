/** The checks `uploadImage` makes before anything is sent to storage, and
    the storage path it derives from the file name and the current time.
    The storage service is a parameter: given the path, it either rejects
    the upload or reports the public URL. */
module Upload {
  import opened Core
  import opened Text

  const ValidTypes: seq<string> := ["image/jpeg", "image/png", "image/gif", "image/webp"]
  const MaxSize: nat := 5 * 1024 * 1024
  const Folder: string := "public_uploads/"

  /** The part of a browser `File` the upload reads. */
  datatype File = File(name: string, mime: string, size: nat)

  datatype UploadError =
    | InvalidType
    | TooLarge
    | StorageFailed(message: string)
    | NoPublicUrl

  datatype StorageReply = Rejected(message: string) | Stored(publicUrl: string)

  /** The text of the error thrown for each failure. */
  function Message(e: UploadError): (m: string)
    ensures m != []
  {
    match e
    case InvalidType => "Only JPG, PNG, GIF, or WEBP images are allowed"
    case TooLarge => "File must be smaller than 5MB"
    case StorageFailed(m) => if m == [] then "Failed to upload image" else m
    case NoPublicUrl => "Failed to generate public URL"
  }

  // --------------------------------------------------- decimal timestamps

  predicate IsDigit(c: char)
  {
    '0' <= c <= '9'
  }

  /** `n.toString()` for a non-negative integer. */
  function Digits(n: nat): (s: string)
    ensures |s| >= 1
    ensures forall k :: 0 <= k < |s| ==> IsDigit(s[k])
    ensures s[0] == '0' <==> n == 0
    ensures |s| > 1 ==> s[0] != '0'
  {
    var d := ['0' + (n % 10) as char];
    if n < 10 then d else Digits(n / 10) + d
  }

  /** Reads a string of decimal digits back as a number. */
  function DigitsValue(s: string): (v: nat)
    requires forall k :: 0 <= k < |s| ==> IsDigit(s[k])
  {
    if |s| == 0 then 0
    else
      assert IsDigit(s[|s| - 1]);
      10 * DigitsValue(s[..|s| - 1]) + (s[|s| - 1] as int - '0' as int)
  }

  /** The timestamp can be read back from its rendering. */
  lemma {:induction false} DigitsRoundTrip(n: nat)
    ensures DigitsValue(Digits(n)) == n
  {
    var s := Digits(n);
    if n >= 10 {
      DigitsRoundTrip(n / 10);
      assert s[..|s| - 1] == Digits(n / 10);
    }
  }

  // ------------------------------------------------------- storage path

  /** `name.split('.').pop()`: the text after the last dot, or the whole
      name when there is none. */
  function Extension(name: string): (ext: string)
    ensures '.' !in ext
    ensures |ext| <= |name| && name[|name| - |ext|..] == ext
    ensures '.' !in name ==> ext == name
    ensures '.' in name ==> |ext| < |name| && name[|name| - |ext| - 1] == '.'
  {
    LastPieceIsSuffix(name, '.');
    var parts := Split(name, '.');
    parts[|parts| - 1]
  }

  /** `public_uploads/${Date.now()}.${fileExt}`. */
  function StoragePath(name: string, timestamp: nat): (path: string)
  {
    Folder + Digits(timestamp) + "." + Extension(name)
  }

  /** A dot-free suffix that directly follows a dot is what `Extension`
      returns. */
  lemma ExtensionOfDotted(front: string, ext: string)
    requires '.' !in ext
    ensures Extension(front + "." + ext) == ext
  {
    var s := front + "." + ext;
    assert s[|front|] == '.';
    assert s[|front| + 1..] == ext;
    var e := Extension(s);
    assert e == ext;
  }

  /** The stored object sits in the upload folder and keeps the file's
      extension. */
  lemma StoragePathKeepsExtension(name: string, timestamp: nat)
    ensures StartsWith(StoragePath(name, timestamp), Folder)
    ensures Extension(StoragePath(name, timestamp)) == Extension(name)
  {
    ExtensionOfDotted(Folder + Digits(timestamp), Extension(name));
  }

  /** Between the folder and the extension the path carries the timestamp
      in decimal, so it can be read back. */
  lemma StoragePathTimestamp(name: string, timestamp: nat)
    ensures var path := StoragePath(name, timestamp);
            var stamp := path[|Folder|..|path| - |Extension(name)| - 1];
            && (forall k :: 0 <= k < |stamp| ==> IsDigit(stamp[k]))
            && DigitsValue(stamp) == timestamp
  {
    var d := Digits(timestamp);
    var ext := Extension(name);
    var path := Folder + d + "." + ext;
    assert path[|Folder|..|path| - |ext| - 1] == d;
    DigitsRoundTrip(timestamp);
  }

  // ------------------------------------------------------------- upload

  /** `uploadImage`: the type is checked before the size, and only a file
      passing both reaches storage, under `StoragePath`. */
  function UploadImage(file: File, timestamp: nat, storage: string -> StorageReply): (r: Result<string, UploadError>)
    ensures file.mime !in ValidTypes <==> r == Err(InvalidType)
    ensures file.mime in ValidTypes && file.size > MaxSize <==> r == Err(TooLarge)
    ensures r.Ok? <==> && file.mime in ValidTypes && file.size <= MaxSize
                       && storage(StoragePath(file.name, timestamp)).Stored?
                       && storage(StoragePath(file.name, timestamp)).publicUrl != []
    ensures r.Ok? ==> storage(StoragePath(file.name, timestamp)) == Stored(r.value)
    ensures r.Err? && r.error.StorageFailed? <==>
              file.mime in ValidTypes && file.size <= MaxSize
              && storage(StoragePath(file.name, timestamp)).Rejected?
    ensures r.Err? && r.error.StorageFailed? ==>
              storage(StoragePath(file.name, timestamp)) == Rejected(r.error.message)
    ensures r == Err(NoPublicUrl) <==>
              file.mime in ValidTypes && file.size <= MaxSize
              && storage(StoragePath(file.name, timestamp)) == Stored([])
  {
    if file.mime !in ValidTypes then Err(InvalidType)
    else if file.size > MaxSize then Err(TooLarge)
    else
      match storage(StoragePath(file.name, timestamp))
      case Rejected(m) => Err(StorageFailed(m))
      case Stored(url) => if url == [] then Err(NoPublicUrl) else Ok(url)
  }

  /** The size bound is inclusive: exactly five mebibytes is accepted, one
      byte more is refused. */
  lemma SizeBoundInclusive(name: string, timestamp: nat, storage: string -> StorageReply)
    ensures UploadImage(File(name, "image/png", 5242880), timestamp, storage) != Err(TooLarge)
    ensures UploadImage(File(name, "image/png", 5242881), timestamp, storage) == Err(TooLarge)
  {
  }

  /** A file of the wrong type is refused as such even when it is also too
      large, and storage is never consulted. */
  lemma TypeCheckedFirst(name: string, size: nat, timestamp: nat, storage: string -> StorageReply)
    ensures UploadImage(File(name, "image/svg+xml", size), timestamp, storage) == Err(InvalidType)
  {
  }
}
