/**
 * The upload middleware configured in config/multer.js: the image filter,
 * the 5 MiB size limit and the generated name under which an accepted
 * photo is stored.
 */
module Upload {
  import opened Options
  import opened Strings
  import opened Paths

  /** The alternatives of the unanchored pattern /jpeg|jpg|png|gif/. */
  const AllowedTypes: seq<string> := ["jpeg", "jpg", "png", "gif"]

  /** The word "gambar" (image), which the error handler looks for. */
  const ImageWord := "gambar"

  /** The error the filter raises: "Hanya file gambar yang diperbolehkan (jpeg, jpg, png, gif)". */
  const FilterMessage := "Hanya file " + ImageWord + " yang diperbolehkan (jpeg, jpg, png, gif)"

  /** `limits.fileSize`: 5 MiB. */
  const MaxFileSize: nat := 5 * 1024 * 1024

  /** The message of the error multer raises for a file over the size limit
      (its `LIMIT_FILE_SIZE` error). */
  const SizeLimitMessage := "File too large"

  /** Every stored photo name starts with this. */
  const NamePrefix := "produk-"

  /** `Math.round(Math.random() * 1e9)` lies in [0, 10^9]. */
  const MaxRandomSuffix: nat := 1000000000
  type RandomSuffix = r: nat | r <= MaxRandomSuffix

  /** Some alternative of the pattern occurs in `s`, anywhere. */
  ghost predicate HasAllowedType(s: string) {
    exists k: nat, i: nat :: k < |AllowedTypes| && OccursAt(s, AllowedTypes[k], i)
  }

  /** `allowedTypes.test(s)`: the alternatives tried one after the other. */
  function TestAllowedTypes(s: string): (r: bool)
    ensures r <==> HasAllowedType(s)
  {
    var r := Contains(s, "jpeg") || Contains(s, "jpg") || Contains(s, "png") || Contains(s, "gif");
    assert r ==> HasAllowedType(s) by {
      if Contains(s, "jpeg") { var i: nat :| OccursAt(s, AllowedTypes[0], i); }
      else if Contains(s, "jpg") { var i: nat :| OccursAt(s, AllowedTypes[1], i); }
      else if Contains(s, "png") { var i: nat :| OccursAt(s, AllowedTypes[2], i); }
      else if Contains(s, "gif") { var i: nat :| OccursAt(s, AllowedTypes[3], i); }
    }
    assert HasAllowedType(s) ==> r by {
      if HasAllowedType(s) {
        var k: nat, i: nat :| k < |AllowedTypes| && OccursAt(s, AllowedTypes[k], i);
        assert Contains(s, AllowedTypes[k]);
      }
    }
    r
  }

  /** What `fileFilter` tells multer: accept, or fail with an error message. */
  datatype Verdict = Accept | Reject(message: string)

  /** `fileFilter`: the lower-cased extension of the client's file name and
      the declared MIME type (not lower-cased) must both match the pattern. */
  function FileFilter(originalname: string, mimetype: string): (v: Verdict)
    ensures v.Accept? <==> HasAllowedType(Lower(Extname(originalname))) && HasAllowedType(mimetype)
    ensures v.Reject? ==> v.message == FilterMessage
  {
    var extOk := TestAllowedTypes(Lower(Extname(originalname)));
    var mimeOk := TestAllowedTypes(mimetype);
    if mimeOk && extOk then Accept else Reject(FilterMessage)
  }

  /** The verdict does not depend on the case of the letters in the file name. */
  lemma FilterIgnoresNameCase(originalname: string, mimetype: string)
    ensures FileFilter(Lower(originalname), mimetype) == FileFilter(originalname, mimetype)
  {
    ExtnameLower(originalname);
    LowerIdempotent(Extname(originalname));
  }

  /** A name without an extension is refused, whatever its MIME type. */
  lemma NoExtensionRefused(originalname: string, mimetype: string)
    requires Extname(originalname) == ""
    ensures FileFilter(originalname, mimetype).Reject?
  {
    assert Lower("") == "";
    NothingInEmpty("jpeg");
    NothingInEmpty("jpg");
    NothingInEmpty("png");
    NothingInEmpty("gif");
    assert !TestAllowedTypes("");
  }

  /** For a name made of a base and an extension, the filter judges the
      lower-cased extension and the MIME type. */
  lemma FilterOfJoin(base: string, ext: string, mimetype: string)
    requires base != "" && NoChar(base, '/')
    requires IsExtension(ext) && ext != "" && base + ext != ".."
    ensures FileFilter(base + ext, mimetype).Accept? <==>
      TestAllowedTypes(Lower(ext)) && TestAllowedTypes(mimetype)
  {
    ExtnameOfJoin(base, ext);
  }

  /** An upper-case extension passes: ".PNG" is lower-cased before the test. */
  lemma UpperCaseExtensionAccepted(base: string, mimetype: string)
    requires base != "" && NoChar(base, '/')
    requires HasAllowedType(mimetype)
    ensures FileFilter(base + ".PNG", mimetype) == Accept
  {
    FilterOfJoin(base, ".PNG", mimetype);
    UpperPngHasType();
  }

  lemma UpperPngHasType()
    ensures TestAllowedTypes(Lower(".PNG"))
  {
    var lowered := Lower(".PNG");
    assert lowered == ".png";
    assert OccursAt(lowered, "png", 1);
  }

  /** The MIME type is tested as sent, without lower-casing: one written in
      capitals ("IMAGE/PNG") is refused whatever the name. */
  lemma UpperCaseMimeTypeRefused(originalname: string, mimetype: string)
    requires forall j | 0 <= j < |mimetype| :: !('a' <= mimetype[j] <= 'z')
    ensures FileFilter(originalname, mimetype).Reject?
  {
    AbsentFirstChar(mimetype, "jpeg");
    AbsentFirstChar(mimetype, "jpg");
    AbsentFirstChar(mimetype, "png");
    AbsentFirstChar(mimetype, "gif");
    assert !TestAllowedTypes(mimetype);
  }

  /** The pattern is unanchored: an extension that merely begins with "jpg"
      (".jpgx", ".jpg_old") passes. */
  lemma ContainedTypeAccepted(base: string, tail: string, mimetype: string)
    requires base != "" && NoChar(base, '/')
    requires NoChar(tail, '.') && NoChar(tail, '/')
    requires HasAllowedType(mimetype)
    ensures FileFilter(base + ".jpg" + tail, mimetype) == Accept
  {
    var ext := ".jpg" + tail;
    assert IsExtension(ext) by {
      assert ext[1..] == "jpg" + tail;
    }
    assert base + ".jpg" + tail == base + ext;
    FilterOfJoin(base, ext, mimetype);
    JpgPrefixHasType(tail);
  }

  lemma JpgPrefixHasType(tail: string)
    ensures TestAllowedTypes(Lower(".jpg" + tail))
  {
    var lowered := Lower(".jpg" + tail);
    LowerAppend(".jpg", tail);
    assert Lower(".jpg") == ".jpg";
    assert lowered[1..4] == "jpg";
    assert OccursAt(lowered, "jpg", 1);
  }

  /** A dot-file such as ".png" has no extension and is refused. */
  lemma DotFileRefused(name: string, mimetype: string)
    requires IsExtension(name) && name != ""
    ensures FileFilter(name, mimetype).Reject?
  {
    assert LastIndexOf(name, '/').None?;
    assert StripTrailingSlashes(name) == name;
    assert LastIndexOf(name, '.') == Some(0);
    NoExtensionRefused(name, mimetype);
  }

  /** A ".txt" file is refused, whatever MIME type it claims. */
  lemma TextFileRefused(base: string, mimetype: string)
    requires base != "" && NoChar(base, '/')
    ensures FileFilter(base + ".txt", mimetype).Reject?
  {
    FilterOfJoin(base, ".txt", mimetype);
    TxtHasNoType();
  }

  lemma TxtHasNoType()
    ensures !TestAllowedTypes(Lower(".txt"))
  {
    var lowered := Lower(".txt");
    assert lowered == ".txt";
    AbsentFirstChar(lowered, "jpeg");
    AbsentFirstChar(lowered, "jpg");
    AbsentFirstChar(lowered, "png");
    AbsentFirstChar(lowered, "gif");
  }

  /** The stored name: prefix, timestamp, '-', random suffix, then the extension. */
  function StoredName(now: nat, rand: RandomSuffix, ext: string): (name: string)
    ensures IsPrefix(NamePrefix, name)
    ensures |ext| <= |name| && name[|name| - |ext|..] == ext
    ensures NoChar(name[..|name| - |ext|], '.') && NoChar(name[..|name| - |ext|], '/')
  {
    var stem := NamePrefix + Decimal(now) + "-" + Decimal(rand);
    StemHasNoSeparator(now, rand);
    assert (stem + ext)[..|stem|] == stem;
    assert (stem + ext)[..|NamePrefix|] == NamePrefix;
    stem + ext
  }

  /** The stem of a stored name holds neither '.' nor '/'. */
  lemma StemHasNoSeparator(now: nat, rand: RandomSuffix)
    ensures NoChar(NamePrefix + Decimal(now) + "-" + Decimal(rand), '.')
    ensures NoChar(NamePrefix + Decimal(now) + "-" + Decimal(rand), '/')
  {
    var d1, d2 := Decimal(now), Decimal(rand);
    var stem := NamePrefix + d1 + "-" + d2;
    forall j | 0 <= j < |stem| ensures stem[j] != '.' && stem[j] != '/' {
      if |NamePrefix| <= j < |NamePrefix| + |d1| {
        assert stem[j] == d1[j - |NamePrefix|];
      } else if |NamePrefix| + |d1| + 1 <= j {
        assert stem[j] == d2[j - |NamePrefix| - |d1| - 1];
      }
    }
  }

  /** A stored name has exactly the extension it was built with. */
  lemma StoredNameExtension(now: nat, rand: RandomSuffix, ext: string)
    requires IsExtension(ext)
    ensures Extname(StoredName(now, rand, ext)) == ext
  {
    var stem := NamePrefix + Decimal(now) + "-" + Decimal(rand);
    StemHasNoSeparator(now, rand);
    assert StoredName(now, rand, ext) == stem + ext;
    if ext == "" {
      assert stem + ext == stem;
      NoDotNoExtension(stem);
    } else {
      assert stem[0] == 'p';
      ExtnameOfJoin(stem, ext);
    }
  }

  /** `storage.filename`: the name under which an accepted photo is written,
      built from `Date.now()`, the random suffix and the extension of the
      client's name; the extension survives, so the stored file keeps the
      type the filter judged. */
  function Filename(now: nat, rand: RandomSuffix, originalname: string): (name: string)
    ensures IsPrefix(NamePrefix, name)
    ensures Extname(name) == Extname(originalname)
  {
    var ext := Extname(originalname);
    StoredNameExtension(now, rand, ext);
    StoredName(now, rand, ext)
  }

  /** The parts a generated name is made of. */
  datatype NameParts = NameParts(timestamp: nat, random: nat, ext: string)

  /** Reads a name of the form "produk-<digits>-<digits><extension>". */
  function ParseName(name: string): Option<NameParts> {
    if IsPrefix(NamePrefix, name) then ParseStamp(name[|NamePrefix|..]) else None
  }

  /** Reads "<digits>-<digits><extension>". */
  function ParseStamp(s: string): Option<NameParts> {
    var split := SplitDigits(s);
    if split.0 == "" || split.1 == "" || split.1[0] != '-' then None
    else ParseSuffix(DecimalValue(split.0), split.1[1..])
  }

  /** Reads "<digits><extension>" after the timestamp. */
  function ParseSuffix(timestamp: nat, s: string): Option<NameParts> {
    var split := SplitDigits(s);
    if split.0 == "" || !IsExtension(split.1) then None
    else Some(NameParts(timestamp, DecimalValue(split.0), split.1))
  }

  /** A generated name is recognised by its shape. */
  predicate IsGeneratedName(name: string) {
    ParseName(name).Some?
  }

  lemma ParseSuffixOf(timestamp: nat, digits: string, ext: string)
    requires digits != "" && AllDigits(digits)
    requires IsExtension(ext)
    ensures ParseSuffix(timestamp, digits + ext) == Some(NameParts(timestamp, DecimalValue(digits), ext))
  {
    SplitDigitsAt(digits, ext);
  }

  lemma ParseStampOf(d1: string, d2: string, ext: string)
    requires d1 != "" && AllDigits(d1)
    requires d2 != "" && AllDigits(d2)
    requires IsExtension(ext)
    ensures ParseStamp(d1 + "-" + d2 + ext) == Some(NameParts(DecimalValue(d1), DecimalValue(d2), ext))
  {
    var tail := d2 + ext;
    var rest := "-" + tail;
    var s := d1 + "-" + d2 + ext;
    assert s == d1 + rest;
    assert rest[0] == '-';
    SplitDigitsAt(d1, rest);
    assert SplitDigits(s) == (d1, rest);
    assert rest[1..] == tail;
    ParseSuffixOf(DecimalValue(d1), d2, ext);
    assert ParseStamp(s) == ParseSuffix(DecimalValue(d1), tail);
  }

  /** Parsing a stored name recovers the timestamp, the random suffix and the extension. */
  lemma ParseStoredName(now: nat, rand: RandomSuffix, ext: string)
    requires IsExtension(ext)
    ensures ParseName(StoredName(now, rand, ext)) == Some(NameParts(now, rand, ext))
  {
    var d1, d2 := Decimal(now), Decimal(rand);
    var name := StoredName(now, rand, ext);
    var stamp := d1 + "-" + d2 + ext;
    assert name == NamePrefix + stamp;
    assert name[..|NamePrefix|] == NamePrefix;
    assert name[|NamePrefix|..] == stamp;
    ParseStampOf(d1, d2, ext);
    DecimalRoundTrip(now);
    DecimalRoundTrip(rand);
  }

  /** Every name `Filename` produces has the generated shape. */
  lemma FilenameIsGenerated(now: nat, rand: RandomSuffix, originalname: string)
    ensures IsGeneratedName(Filename(now, rand, originalname))
  {
    ParseStoredName(now, rand, Extname(originalname));
  }

  /** Two stored names coincide only when timestamp, random suffix and
      extension all coincide: the client's base name never matters. */
  lemma FilenameDeterminedBy(now1: nat, rand1: RandomSuffix, a: string,
                             now2: nat, rand2: RandomSuffix, b: string)
    ensures Filename(now1, rand1, a) == Filename(now2, rand2, b) <==>
      now1 == now2 && rand1 == rand2 && Extname(a) == Extname(b)
  {
    ParseStoredName(now1, rand1, Extname(a));
    ParseStoredName(now2, rand2, Extname(b));
  }

  /** Only a named file can pass the filter: the empty name has no extension. */
  lemma AcceptedFileIsNamed(originalname: string, mimetype: string)
    requires FileFilter(originalname, mimetype).Accept?
    ensures originalname != ""
  {
    if originalname == "" {
      NoExtensionRefused(originalname, mimetype);
    }
  }

  /** A file as multer sees it before storing it. */
  datatype IncomingFile = IncomingFile(originalname: string, mimetype: string, size: nat)

  /** What `upload.single("foto_produk")` leaves for the handler. */
  datatype Received =
    | NoFile                      // no file part: `req.file` is undefined
    | Refused(message: string)    // the filter's error, passed to the error handler
    | TooLarge                    // the size limit was exceeded
    | Stored(filename: string)    // written to disk; `req.file.filename`

  /** The upload middleware: the filter runs first, then the size limit while
      the file is written; the generated name is what the handler sees.
      multer skips a file part whose file name is empty (what a browser
      sends for an empty file input), so the handler sees no file. */
  function Receive(file: Option<IncomingFile>, now: nat, rand: RandomSuffix): (r: Received)
    ensures r.NoFile? <==> file.None? || file.value.originalname == ""
    ensures r.Refused? <==>
      file.Some? && file.value.originalname != "" && FileFilter(file.value.originalname, file.value.mimetype).Reject?
    ensures r.Refused? ==> r.message == FilterMessage
    ensures r.TooLarge? <==>
      file.Some? && file.value.originalname != "" &&
      FileFilter(file.value.originalname, file.value.mimetype).Accept? && file.value.size > MaxFileSize
    ensures r.Stored? ==> r.filename == Filename(now, rand, file.value.originalname) && IsGeneratedName(r.filename)
  {
    match file
    case None => NoFile
    case Some(f) =>
      if f.originalname == "" then NoFile
      else match FileFilter(f.originalname, f.mimetype)
      case Reject(msg) => Refused(msg)
      case Accept =>
        if f.size > MaxFileSize then TooLarge
        else
          FilenameIsGenerated(now, rand, f.originalname);
          Stored(Filename(now, rand, f.originalname))
  }

  /** The limit is exactly 5242880 bytes: an acceptable file of that size is
      stored, one byte more is not. */
  lemma SizeLimitBoundary(name: string, mimetype: string, now: nat, rand: RandomSuffix)
    requires FileFilter(name, mimetype).Accept?
    ensures MaxFileSize == 5242880
    ensures Receive(Some(IncomingFile(name, mimetype, 5242880)), now, rand).Stored?
    ensures Receive(Some(IncomingFile(name, mimetype, 5242881)), now, rand) == TooLarge
  {
    AcceptedFileIsNamed(name, mimetype);
  }
}
