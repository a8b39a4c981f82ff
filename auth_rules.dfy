/**
  The pure rules inside AuthController: the specialty allow-list, the
  six-digit reset code, the checks SaveImageAsync makes before it writes a
  file and the name it gives the file, and the claims a token carries.
 */
module AuthRules {
  import opened Wrappers
  import opened Text
  import opened Numbers
  import opened Linq

  // ---------------------------------------------------------------------
  // Specialties

  const AllowedSpecialties: seq<string> := ["Cardiology", "Neurology", "Pediatrics", "Orthopedics", "Dermatology"]

  /** _allowedSpecialties.Contains(specialty, StringComparer.OrdinalIgnoreCase). */
  predicate IsAllowedSpecialty(specialty: string) {
    exists i :: 0 <= i < |AllowedSpecialties| && EqualsIgnoreCase(AllowedSpecialties[i], specialty)
  }

  /** The allow-list, spelled in lower case. */
  const LowerSpecialties: seq<string> := ["cardiology", "neurology", "pediatrics", "orthopedics", "dermatology"]

  lemma LowerOfLiteral(s: string, t: string)
    requires |s| == |t| && forall i :: 0 <= i < |s| ==> LowerChar(s[i]) == t[i]
    ensures Lower(s) == t
  {
  }

  lemma LowerSpecialtiesAreLowered()
    ensures |LowerSpecialties| == |AllowedSpecialties|
    ensures forall i :: 0 <= i < |AllowedSpecialties| ==> Lower(AllowedSpecialties[i]) == LowerSpecialties[i]
  {
    LowerOfLiteral("Cardiology", "cardiology");
    LowerOfLiteral("Neurology", "neurology");
    LowerOfLiteral("Pediatrics", "pediatrics");
    LowerOfLiteral("Orthopedics", "orthopedics");
    LowerOfLiteral("Dermatology", "dermatology");
  }

  /** A specialty is accepted exactly when, lowercased, it is one of the five names. */
  lemma SpecialtyAllowedIff(specialty: string)
    ensures IsAllowedSpecialty(specialty) <==> Lower(specialty) in LowerSpecialties
  {
    LowerSpecialtiesAreLowered();
    if IsAllowedSpecialty(specialty) {
      var i :| 0 <= i < |AllowedSpecialties| && EqualsIgnoreCase(AllowedSpecialties[i], specialty);
      assert LowerSpecialties[i] == Lower(specialty);
    }
    if Lower(specialty) in LowerSpecialties {
      var i :| 0 <= i < |LowerSpecialties| && LowerSpecialties[i] == Lower(specialty);
      assert EqualsIgnoreCase(AllowedSpecialties[i], specialty);
    }
  }

  // ---------------------------------------------------------------------
  // Reset codes

  /** GenerateResetCode: the four random bytes as a little-endian UInt32, modulo 10^6, in "D6" format. */
  function GenerateResetCode(b0: byte, b1: byte, b2: byte, b3: byte): string {
    FormatD(UInt32LE(b0, b1, b2, b3) % 1000000, 6)
  }

  /** A reset code is six decimal digits, zero padded, denoting the random value modulo 10^6. */
  lemma ResetCodeIsSixDigits(b0: byte, b1: byte, b2: byte, b3: byte)
    ensures |GenerateResetCode(b0, b1, b2, b3)| == 6
    ensures AllDigits(GenerateResetCode(b0, b1, b2, b3))
    ensures DigitsValue(GenerateResetCode(b0, b1, b2, b3)) == UInt32LE(b0, b1, b2, b3) % 1000000
  {
    assert Pow10(6) == 1000000;
    FormatDExact(UInt32LE(b0, b1, b2, b3) % 1000000, 6);
  }

  // ---------------------------------------------------------------------
  // Path.GetExtension, which stops at a directory separator ('/' or '\\' on Windows)

  predicate IsPathSeparator(c: char) {
    c == '/' || c == '\\'
  }

  /** Position k starts an extension: a dot that is not the last character, with no dot or separator after it. */
  ghost predicate ExtensionAt(path: string, k: int) {
    0 <= k < |path| - 1 && path[k] == '.'
    && forall j :: k < j < |path| ==> path[j] != '.' && !IsPathSeparator(path[j])
  }

  /** The backward scan of GetExtension over path[..i]; everything from i on has been passed over. */
  function ExtensionScan(path: string, i: nat): (r: string)
    requires i <= |path|
    requires forall j :: i <= j < |path| ==> path[j] != '.' && !IsPathSeparator(path[j])
    ensures r != [] ==> |r| <= |path| && ExtensionAt(path, |path| - |r|) && r == path[|path| - |r|..]
    ensures r == [] ==> forall k :: 0 <= k < i ==> !ExtensionAt(path, k)
    decreases i
  {
    if i == 0 then []
    else if path[i - 1] == '.' then (if i == |path| then [] else path[i - 1..])
    else if IsPathSeparator(path[i - 1]) then []
    else ExtensionScan(path, i - 1)
  }

  /** Path.GetExtension: from the last dot of the file name on, or empty when there is none or it ends the name. */
  function GetExtension(path: string): (r: string)
    ensures r != [] ==> |r| <= |path| && ExtensionAt(path, |path| - |r|) && r == path[|path| - |r|..]
    ensures r == [] <==> forall k :: 0 <= k < |path| ==> !ExtensionAt(path, k)
  {
    ExtensionScan(path, |path|)
  }

  /** A name has at most one extension position. */
  lemma ExtensionAtUnique(path: string, k1: int, k2: int)
    requires ExtensionAt(path, k1) && ExtensionAt(path, k2)
    ensures k1 == k2
  {
  }

  /** What an extension looks like: a dot and at least one more character, none of them a dot or a separator. */
  ghost predicate ExtensionShaped(e: string) {
    |e| >= 2 && e[0] == '.' && forall j :: 1 <= j < |e| ==> e[j] != '.' && !IsPathSeparator(e[j])
  }

  /** Whatever GetExtension finds is extension shaped. */
  lemma ExtensionIsShaped(path: string)
    requires GetExtension(path) != []
    ensures ExtensionShaped(GetExtension(path))
  {
    var r := GetExtension(path);
    var k := |path| - |r|;
    assert forall j :: 1 <= j < |r| ==> r[j] == path[k + j];
  }

  /** Lowercasing keeps an extension extension shaped. */
  lemma LowerKeepsShape(e: string)
    requires ExtensionShaped(e)
    ensures ExtensionShaped(Lower(e))
  {
  }

  /** Appending an extension-shaped run gives that extension, whatever came before. */
  lemma {:induction false} ExtensionOfAppended(stem: string, ext: string)
    requires ExtensionShaped(ext)
    ensures GetExtension(stem + ext) == ext
  {
    var path := stem + ext;
    assert ExtensionAt(path, |stem|) by {
      assert forall j :: |stem| < j < |path| ==> path[j] == ext[j - |stem|];
    }
    var r := GetExtension(path);
    ExtensionAtUnique(path, |path| - |r|, |stem|);
  }

  // ---------------------------------------------------------------------
  // The image gate of SaveImageAsync

  /** An uploaded file (IFormFile): its length in bytes and the file name the client sent. */
  datatype Upload = Upload(length: nat, fileName: string)

  const MaxImageSize: nat := 5 * 1024 * 1024

  const AllowedImageExtensions: seq<string> := [".jpg", ".jpeg", ".png", ".gif"]

  const FileTooLarge: string := "File size exceeds the maximum limit of 5MB."
  const InvalidFileType: string := "Invalid file type. Only JPG, JPEG, PNG, and GIF are allowed."

  /** The relative URL under which SaveImageAsync stores a file: "/Uploads/Images/{prefix}-{id}-{timestamp}{extension}". */
  function ImageUrl(prefix: string, id: int, stamp: string, extension: string): string {
    "/Uploads/Images/" + prefix + "-" + IntToString(id) + "-" + stamp + extension
  }

  /**
    SaveImageAsync(image, prefix, id): no file, or an empty one, stores
    nothing (Success(None)); a file over 5 MB or whose lowercased extension
    is not an allowed one is refused with the exception's message; any
    other file is stored under its URL. The write itself is taken to
    succeed.
   */
  function SaveImage(image: Option<Upload>, prefix: string, id: int, stamp: string): Result<Option<string>, string> {
    if image.None? || image.value.length == 0 then Success(None)
    else if image.value.length > MaxImageSize then Failure(FileTooLarge)
    else
      var extension := Lower(GetExtension(image.value.fileName));
      if extension !in AllowedImageExtensions then Failure(InvalidFileType)
      else Success(Some(ImageUrl(prefix, id, stamp, extension)))
  }

  /** The reference for the gate: a file is stored when it is non-empty, at most 5 MB, and named .jpg, .jpeg, .png or .gif in any case. */
  predicate AcceptableImage(u: Upload) {
    0 < u.length <= MaxImageSize && Lower(GetExtension(u.fileName)) in AllowedImageExtensions
  }

  /**
    The gate accepts exactly the acceptable files, reports the size before
    the type, and stores nothing when no file or an empty one is sent.
   */
  lemma SaveImageGate(image: Option<Upload>, prefix: string, id: int, stamp: string)
    ensures image.None? ==> SaveImage(image, prefix, id, stamp) == Success(None)
    ensures image.Some? && image.value.length == 0 ==> SaveImage(image, prefix, id, stamp) == Success(None)
    ensures image.Some? ==> (SaveImage(image, prefix, id, stamp).Success? && SaveImage(image, prefix, id, stamp).value.Some? <==> AcceptableImage(image.value))
    ensures image.Some? && image.value.length > MaxImageSize ==> SaveImage(image, prefix, id, stamp) == Failure(FileTooLarge)
    ensures image.Some? && 0 < image.value.length <= MaxImageSize && !AcceptableImage(image.value) ==> SaveImage(image, prefix, id, stamp) == Failure(InvalidFileType)
  {
  }

  /** The stored file keeps the uploaded file's extension, lowercased: the URL's own extension is it. */
  lemma StoredUrlKeepsExtension(u: Upload, prefix: string, id: int, stamp: string)
    requires AcceptableImage(u)
    ensures SaveImage(Some(u), prefix, id, stamp).Success?
    ensures SaveImage(Some(u), prefix, id, stamp).value.Some?
    ensures GetExtension(SaveImage(Some(u), prefix, id, stamp).value.value) == Lower(GetExtension(u.fileName))
  {
    var extension := Lower(GetExtension(u.fileName));
    assert |extension| > 0 && |extension| == |GetExtension(u.fileName)|;
    var stem := "/Uploads/Images/" + prefix + "-" + IntToString(id) + "-" + stamp;
    assert ImageUrl(prefix, id, stamp, extension) == stem + extension;
    LoweredExtensionAppended(u.fileName, stem);
  }

  /** A file name's extension, lowercased and appended to any stem, is the extension of the result. */
  lemma LoweredExtensionAppended(fileName: string, stem: string)
    requires GetExtension(fileName) != []
    ensures GetExtension(stem + Lower(GetExtension(fileName))) == Lower(GetExtension(fileName))
  {
    ExtensionIsShaped(fileName);
    LowerKeepsShape(GetExtension(fileName));
    ExtensionOfAppended(stem, Lower(GetExtension(fileName)));
  }

  /** The three picture URLs of a patient. */
  datatype PatientImageUrls = PatientImageUrls(image: Option<string>, xRay: Option<string>, labResults: Option<string>)

  /**
    The three SaveImageAsync calls of patient registration, in order: the
    photo ("patient"), the X-ray ("patient-xray") and the lab results
    ("patient-lab"); the first refusal ends the sequence.
   */
  function PatientImages(image: Option<Upload>, xRay: Option<Upload>, labResults: Option<Upload>, id: int, stamp: string): Result<PatientImageUrls, string> {
    var a := SaveImage(image, "patient", id, stamp);
    if a.Failure? then Failure(a.error)
    else
      var b := SaveImage(xRay, "patient-xray", id, stamp);
      if b.Failure? then Failure(b.error)
      else
        var c := SaveImage(labResults, "patient-lab", id, stamp);
        if c.Failure? then Failure(c.error)
        else Success(PatientImageUrls(a.value, b.value, c.value))
  }

  /** The three pictures are stored exactly when each passes the gate, and a refusal reports the first refused one. */
  lemma PatientImagesAllOrFirstRefusal(image: Option<Upload>, xRay: Option<Upload>, labResults: Option<Upload>, id: int, stamp: string)
    ensures PatientImages(image, xRay, labResults, id, stamp).Success? <==>
      SaveImage(image, "patient", id, stamp).Success? && SaveImage(xRay, "patient-xray", id, stamp).Success? && SaveImage(labResults, "patient-lab", id, stamp).Success?
    ensures SaveImage(image, "patient", id, stamp).Failure? ==>
      PatientImages(image, xRay, labResults, id, stamp) == Failure(SaveImage(image, "patient", id, stamp).error)
    ensures PatientImages(image, xRay, labResults, id, stamp).Success? ==>
      PatientImages(image, xRay, labResults, id, stamp).value ==
        PatientImageUrls(SaveImage(image, "patient", id, stamp).value, SaveImage(xRay, "patient-xray", id, stamp).value, SaveImage(labResults, "patient-lab", id, stamp).value)
    ensures image.None? && xRay.None? && labResults.None? ==>
      PatientImages(image, xRay, labResults, id, stamp) == Success(PatientImageUrls(None, None, None))
  {
  }

  // ---------------------------------------------------------------------
  // Token claims

  /** The claims GenerateJwtToken puts in a token, apart from its jti: sub, role, userId and isAdmin. */
  datatype Claims = Claims(subject: string, role: string, userId: string, isAdmin: string)

  /** bool.ToString() */
  function BoolToString(b: bool): string {
    if b then "True" else "False"
  }

  function TokenClaims(email: string, role: string, userId: int, isAdmin: bool): Claims {
    Claims(email, role, IntToString(userId), BoolToString(isAdmin))
  }

  /** The userId claim of a token reads back, through int.TryParse, as the id it was made from. */
  lemma UserIdClaimRoundTrip(email: string, role: string, userId: int, isAdmin: bool)
    requires IsInt32(userId)
    ensures ParseInt32(TokenClaims(email, role, userId, isAdmin).userId) == Some(userId)
  {
    ParsePrinted(userId);
  }
}
