/**
 * The image-upload rules of the products controller's Create and Update
 * actions (both apply the same checks in the same order), the relative path
 * they hand to the product service, and the mapping Delete applies to a
 * stored path before removing the file.
 */
module Uploads {
  import opened Wrappers
  import opened Entities
  import opened Text
  import Products

  const AllowedExtensions: seq<string> := [".jpg", ".jpeg", ".png", ".gif", ".bmp", ".webp"]
  const MaxFileSize: int := 2 * 1024 * 1024

  const ExtensionRejected: string := "Only photo formats are allowed (jpg, jpeg, png, gif, bmp, webp)."
  const TypeRejected: string := "Invalid file type. Only image files are allowed."
  const SizeRejected: string := "File size must be less than 2 MB."

  /** The parts of an uploaded `IFormFile` the checks read. */
  datatype FormFile = FormFile(fileName: string, contentType: string, length: int)

  predicate IsDirectorySeparator(c: char) {
    c == '/' || c == '\\'
  }

  /** No '.' and no directory separator in `path[from..to]`. */
  ghost predicate PlainSpan(path: string, from: int, to: int)
    requires 0 <= from && to <= |path|
  {
    forall m :: from <= m < to ==> path[m] != '.' && !IsDirectorySeparator(path[m])
  }

  /** The backward scan of `Path.GetExtension`, looking at `path[..i]` once `path[i..]` is known plain. */
  function ExtensionBefore(path: string, i: nat): (r: string)
    requires i <= |path| && PlainSpan(path, i, |path|)
    ensures r == "" || (2 <= |r| <= |path| && r == path[|path| - |r|..] && r[0] == '.'
                        && PlainSpan(path, |path| - |r| + 1, |path|))
    decreases i
  {
    if i == 0 then ""
    else if path[i - 1] == '.' then (if i - 1 != |path| - 1 then path[i - 1..] else "")
    else if IsDirectorySeparator(path[i - 1]) then ""
    else ExtensionBefore(path, i - 1)
  }

  /** `Path.GetExtension`: empty, or the suffix from the last '.' when no separator follows it and
      it is not the final character; '/' and '\' both count as separators. */
  function GetExtension(path: string): (r: string)
    ensures r == "" || (2 <= |r| <= |path| && r == path[|path| - |r|..] && r[0] == '.'
                        && PlainSpan(path, |path| - |r| + 1, |path|))
  {
    ExtensionBefore(path, |path|)
  }

  /** The scan stops at the last '.' before `i` when only plain characters follow it. */
  lemma {:induction false} ExtensionBeforeFinds(path: string, i: nat, k: nat)
    requires i <= |path| && PlainSpan(path, i, |path|)
    requires k < i && k < |path| - 1 && path[k] == '.' && PlainSpan(path, k + 1, i)
    ensures ExtensionBefore(path, i) == path[k..]
    decreases i
  {
    if i - 1 == k {
      assert path[i - 1] == '.' && i - 1 != |path| - 1;
    } else {
      assert path[i - 1] != '.' && !IsDirectorySeparator(path[i - 1]);
      assert PlainSpan(path, i - 1, |path|) by {
        forall m | i - 1 <= m < |path|
          ensures path[m] != '.' && !IsDirectorySeparator(path[m])
        {
          if m >= i {
            assert PlainSpan(path, i, |path|);
          }
        }
      }
      assert PlainSpan(path, k + 1, i - 1);
      ExtensionBeforeFinds(path, i - 1, k);
    }
  }

  /** GetExtension is the suffix from a '.' that is not the last character and is followed only by
      characters that are neither '.' nor a separator. */
  lemma ExtensionOfSuffix(path: string, k: nat)
    requires k < |path| - 1 && path[k] == '.' && PlainSpan(path, k + 1, |path|)
    ensures GetExtension(path) == path[k..]
  {
    ExtensionBeforeFinds(path, |path|, k);
  }

  /** The checks of Create and Update, in order: extension, then content type, then size. Success
      carries the lower-cased extension; Failure the BadRequest message of the first check that fails. */
  function CheckImage(f: FormFile): (r: Result<string, string>)
    ensures r.Success? ==> r.value in AllowedExtensions
    ensures r.Failure? ==> r.error == ExtensionRejected || r.error == TypeRejected || r.error == SizeRejected
  {
    var extension := ToLower(GetExtension(f.fileName));
    if extension == "" || extension !in AllowedExtensions then Failure(ExtensionRejected)
    else if !("image/" <= f.contentType) then Failure(TypeRejected)
    else if f.length > MaxFileSize then Failure(SizeRejected)
    else Success(extension)
  }

  /** The relative path stored for a saved upload. */
  function RelativeImagePath(uniqueName: string, extension: string): string {
    "/images/" + uniqueName + extension
  }

  /** The `imagePath` handed to the product service: null without an upload, the relative path of an
      accepted upload, or the rejection message. `guid` is the text of `Guid.NewGuid()`. */
  function UploadedImagePath(image: Option<FormFile>, guid: string): (r: Result<Option<string>, string>)
    ensures r == Success(None) <==> image.None?
  {
    match image
    case None => Success(None)
    case Some(f) =>
      match CheckImage(f)
      case Failure(message) => Failure(message)
      case Success(extension) => Success(Some(RelativeImagePath(guid, extension)))
  }

  /** Delete's mapping of a stored path to a path under the content root: every leading '/' trimmed,
      every remaining '/' replaced by the platform's separator. */
  function StoredToFilePath(imagePath: string, separator: char): (r: string)
    ensures |r| <= |imagePath|
    ensures r == [] || r[0] != '/'
  {
    ReplaceChar(TrimStart(imagePath, '/'), '/', separator)
  }

  /** The file Delete removes: none for an empty stored path. */
  function FileToDelete(imagePath: string, separator: char): (r: Option<string>)
    ensures r.None? <==> imagePath == ""
  {
    if imagePath == "" then None else Some(StoredToFilePath(imagePath, separator))
  }

  /** An upload is accepted exactly when its lower-cased extension is in the allowlist, its content
      type starts with "image/" and it has at most 2 MiB; otherwise the message is that of the first
      failing check, in the order extension, content type, size. */
  lemma CheckImageOrder(f: FormFile)
    ensures var extension := ToLower(GetExtension(f.fileName));
      && (CheckImage(f).Success? <==>
            extension in AllowedExtensions && "image/" <= f.contentType && f.length <= MaxFileSize)
      && (CheckImage(f).Success? ==> CheckImage(f).value == extension && extension != "")
      && (extension !in AllowedExtensions ==> CheckImage(f) == Failure(ExtensionRejected))
      && (extension in AllowedExtensions && !("image/" <= f.contentType) ==> CheckImage(f) == Failure(TypeRejected))
      && (extension in AllowedExtensions && "image/" <= f.contentType && f.length > MaxFileSize ==>
            CheckImage(f) == Failure(SizeRejected))
  {
  }

  /** The size bound is inclusive: a file of exactly 2 MiB passes, one byte more does not. */
  lemma SizeBoundInclusive(name: string, contentType: string)
    requires ToLower(GetExtension(name)) in AllowedExtensions && "image/" <= contentType
    ensures CheckImage(FormFile(name, contentType, 2097152)).Success?
    ensures CheckImage(FormFile(name, contentType, 2097153)) == Failure(SizeRejected)
  {
  }

  /** A file named "photo.PNG" sent as image/png is accepted, with the extension lower-cased. */
  lemma UpperCaseExtensionAccepted()
    ensures CheckImage(FormFile("photo.PNG", "image/png", 1000)) == Success(".png")
  {
    var n := "photo.PNG";
    assert n[5] == '.' && n[5..] == ".PNG" && PlainSpan(n, 6, |n|);
    ExtensionOfSuffix(n, 5);
    var lower := ToLower(".PNG");
    assert lower == ".png" by {
      assert |lower| == 4 && lower[0] == '.' && lower[1] == 'p' && lower[2] == 'n' && lower[3] == 'g';
    }
    assert lower in AllowedExtensions by {
      assert AllowedExtensions[2] == ".png";
    }
  }

  /** A name whose last '.' is its final character has no extension and is refused for it. */
  lemma TrailingDotRefused(contentType: string, length: int)
    ensures CheckImage(FormFile("photo.", contentType, length)) == Failure(ExtensionRejected)
  {
    var d := "photo.";
    assert GetExtension(d) == "";
    assert ToLower("") == "";
  }

  /** Every allowlisted extension is a '.' followed by at least one character that is neither '.'
      nor a directory separator. */
  lemma AllowedExtensionShape(e: string)
    requires e in AllowedExtensions
    ensures 2 <= |e| && e[0] == '.'
    ensures forall m :: 1 <= m < |e| ==> e[m] != '.' && !IsDirectorySeparator(e[m])
  {
  }

  /** An accepted upload yields "/images/" + guid + an allowlisted extension, and that path's own
      extension is the accepted one, so the stored path would pass the extension check again. */
  lemma AcceptedPathHasAllowedExtension(f: FormFile, guid: string)
    requires UploadedImagePath(Some(f), guid).Success?
    ensures var p := UploadedImagePath(Some(f), guid).value;
      && p.Some?
      && (exists e :: e in AllowedExtensions && p.value == "/images/" + guid + e && GetExtension(p.value) == e)
  {
    var e := CheckImage(f).value;
    UploadedPathExtension(guid, e);
  }

  /** The stored path of an upload with an allowlisted extension has that extension. */
  lemma UploadedPathExtension(guid: string, e: string)
    requires e in AllowedExtensions
    ensures GetExtension(RelativeImagePath(guid, e)) == e
  {
    AllowedExtensionShape(e);
    var p := RelativeImagePath(guid, e);
    var k := |p| - |e|;
    assert p[k..] == e;
    assert PlainSpan(p, k + 1, |p|) by {
      forall m | k + 1 <= m < |p|
        ensures p[m] != '.' && !IsDirectorySeparator(p[m])
      {
        assert p[m] == e[m - k];
      }
    }
    ExtensionOfSuffix(p, k);
  }

  /** The path of an accepted upload is stored verbatim by Create, since it is not whitespace. */
  lemma UploadedPathStoredVerbatim(f: FormFile, guid: string)
    requires UploadedImagePath(Some(f), guid).Success?
    ensures Products.NormalizeImagePath(UploadedImagePath(Some(f), guid).value) ==
              UploadedImagePath(Some(f), guid).value.value
  {
    var p := UploadedImagePath(Some(f), guid).value.value;
    assert p[0] == '/' && !IsWhiteSpace(p[0]);
  }

  /** Without an upload, imagePath stays null, so Update keeps the stored image path. */
  lemma NoImageKeepsStoredPath(guid: string, p: Product, dto: Products.ProductUpdateDto)
    ensures UploadedImagePath(None, guid) == Success(None)
    ensures Products.ApplyUpdate(p, dto, UploadedImagePath(None, guid).value).imagePath == p.imagePath
  {
  }

  /** The mapped path has no leading '/', keeps the length of the trimmed path, and puts the
      separator exactly where the trimmed path has '/'. */
  lemma StoredToFilePathShape(imagePath: string, separator: char)
    ensures var t := TrimStart(imagePath, '/');
      var r := StoredToFilePath(imagePath, separator);
      && |r| == |t| && t == imagePath[|imagePath| - |t|..]
      && (r == [] || r[0] != '/')
      && forall i :: 0 <= i < |r| ==> r[i] == if t[i] == '/' then separator else t[i]
  {
    var t := TrimStart(imagePath, '/');
    var r := StoredToFilePath(imagePath, separator);
    if r != [] {
      assert r[0] == if t[0] == '/' then separator else t[0];
    }
  }

  /** The file Delete removes for a path Create or Update stored is "images", the separator, and the
      unique file name, when the Guid text contains no '/'. */
  lemma DeleteFindsUploadedFile(guid: string, extension: string, separator: char)
    requires extension in AllowedExtensions
    requires forall i :: 0 <= i < |guid| ==> guid[i] != '/'
    ensures FileToDelete(RelativeImagePath(guid, extension), separator) ==
              Some("images" + [separator] + guid + extension)
  {
    TrimUploadedPath(guid, extension);
    ReplaceUploadedName(guid, extension, separator);
  }

  /** Trimming the stored path drops exactly its leading '/'. */
  lemma TrimUploadedPath(guid: string, extension: string)
    ensures RelativeImagePath(guid, extension) != ""
    ensures TrimStart(RelativeImagePath(guid, extension), '/') == "images/" + (guid + extension)
  {
    var p := RelativeImagePath(guid, extension);
    var t := "images/" + (guid + extension);
    assert p == "/" + t;
    assert p[1..] == t && t[0] == 'i';
  }

  /** The separator replacement leaves the unique file name alone and changes only the '/' after
      "images". */
  lemma ReplaceUploadedName(guid: string, extension: string, separator: char)
    requires extension in AllowedExtensions
    requires forall i :: 0 <= i < |guid| ==> guid[i] != '/'
    ensures ReplaceChar("images/" + (guid + extension), '/', separator) == "images" + [separator] + guid + extension
  {
    var dir := "images/";
    AllowedExtensionShape(extension);
    ReplaceCharAbsent(extension, '/', separator);
    ReplaceCharAbsent(guid, '/', separator);
    ReplaceCharAppend(guid, extension, '/', separator);
    ReplaceCharAppend(dir, guid + extension, '/', separator);
    assert ReplaceChar(dir, '/', separator) == "images" + [separator];
    assert ("images" + [separator]) + (guid + extension) == "images" + [separator] + guid + extension;
  }


}
