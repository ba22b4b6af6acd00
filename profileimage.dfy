/** `validateProfileImageFile`: the checks a chosen avatar file must pass, in the source's order. */
module ProfileImage {
  import opened JsText

  /** What the file input yields: nothing, something that is not a `File`, or a file. */
  datatype FileInput = NoFile | NotAFile | File(size: int, mime: string, name: string)

  /** The first failing check, or `Accepted`. */
  datatype Verdict =
    | Accepted
    | NoFileSelected
    | InvalidObject
    | TooSmall
    | TooLarge
    | UnknownType
    | UnsupportedType(mime: string)
    | BadExtension
    | BadName

  const MinSize: int := 100
  const MaxSize: int := 2 * 1024 * 1024

  const ValidTypes: seq<string> := [
    "image/webp", "image/png", "image/jpeg", "image/jpg", "image/gif",
    "image/svg+xml", "image/bmp", "image/x-icon", "image/vnd.microsoft.icon"]

  const ValidExtensions: seq<string> := [".webp", ".png", ".jpg", ".jpeg", ".gif", ".svg", ".bmp", ".ico"]

  /** The lower-cased name ends with one of the image extensions. */
  predicate HasImageExtension(lowerName: string) {
    exists i :: 0 <= i < |ValidExtensions| && EndsWith(lowerName, ValidExtensions[i])
  }

  /** The lower-cased name contains `..`, `/` or `\`. */
  predicate SuspiciousName(lowerName: string) {
    Contains(lowerName, "..") || Contains(lowerName, "/") || Contains(lowerName, "\\")
  }

  /** A file every check accepts. */
  predicate Acceptable(f: FileInput) {
    && f.File?
    && MinSize <= f.size <= MaxSize
    && f.mime in ValidTypes
    && HasImageExtension(Lower(f.name))
    && !SuspiciousName(Lower(f.name))
  }

  function ValidateProfileImageFile(f: FileInput): (v: Verdict)
    ensures v == Accepted <==> Acceptable(f)
    // each rejection names the first check that fails
    ensures v == NoFileSelected <==> f.NoFile?
    ensures v == InvalidObject <==> f.NotAFile?
    ensures v == TooSmall <==> f.File? && f.size < MinSize
    ensures v == TooLarge <==> f.File? && MaxSize < f.size && MinSize <= f.size
    ensures v == UnknownType <==> f.File? && MinSize <= f.size <= MaxSize && f.mime == ""
    ensures v.UnsupportedType? <==> f.File? && MinSize <= f.size <= MaxSize && f.mime != "" && f.mime !in ValidTypes
    ensures v.UnsupportedType? ==> v.mime == f.mime
    ensures v == BadExtension <==>
      f.File? && MinSize <= f.size <= MaxSize && f.mime in ValidTypes && !HasImageExtension(Lower(f.name))
    ensures v == BadName <==>
      f.File? && MinSize <= f.size <= MaxSize && f.mime in ValidTypes
      && HasImageExtension(Lower(f.name)) && SuspiciousName(Lower(f.name))
  {
    match f
    case NoFile => NoFileSelected
    case NotAFile => InvalidObject
    case File(size, mime, name) =>
      if size < MinSize then TooSmall
      else if size > MaxSize then TooLarge
      else if mime == "" then UnknownType
      else if mime !in ValidTypes then UnsupportedType(mime)
      else
        var lowerName := Lower(name);
        if !HasImageExtension(lowerName) then BadExtension
        else if SuspiciousName(lowerName) then BadName
        else Accepted
  }

  /** The size bounds are inclusive: 100 bytes and exactly 2 MiB pass the size checks. */
  lemma SizeBoundsInclusive(mime: string, name: string)
    ensures ValidateProfileImageFile(File(MinSize, mime, name)) != TooSmall
    ensures ValidateProfileImageFile(File(MaxSize, mime, name)) != TooLarge
    ensures ValidateProfileImageFile(File(MinSize - 1, mime, name)) == TooSmall
    ensures ValidateProfileImageFile(File(MaxSize + 1, mime, name)) == TooLarge
  {
  }
}
