/**
 * The static methods of `FileDialog` (src/utils/fileDialog.ts).
 *
 * `isImageFile` and `formatFileSize` are pure and are modelled as they
 * compute. `openImageFile` and `getFileUrl` talk to a host: the native shell
 * (Tauri) or the browser. The host is a parameter here. A `Host` value says
 * which one is running and whether the build is a development build, and the
 * host's answers are plain values or functions supplied by the caller.
 */
module FileDialog {
  import opened Wrappers
  import opened FileTypes
  import JsText
  import JsNumber

  // ---------------------------------------------------------------------
  // isImageFile
  // ---------------------------------------------------------------------

  /** The extensions `isImageFile` accepts, lower case. */
  const ImageExtensions: seq<string> := ["jpg", "jpeg", "png", "gif", "bmp", "webp", "svg"]

  /** `fileName.split('.').pop()`: the text after the last point, or the whole name when it has none. */
  function Extension(fileName: string): (ext: string)
    ensures JsText.IsLastSegment(fileName, ext, '.')
  {
    var parts := JsText.Split(fileName, '.');
    parts[|parts| - 1]
  }

  /**
   * The lowered extension is non-empty and one of the image extensions; an
   * accepted name therefore ends in three or four characters without a point.
   */
  predicate IsImageFile(fileName: string): (accepted: bool)
    ensures accepted ==> 3 <= |Extension(fileName)| <= 4 && '.' !in Extension(fileName)
  {
    var ext := JsText.Lower(Extension(fileName));
    if ext != [] then ext in ImageExtensions else false
  }

  /** A name is an image name exactly when the lowered text after its last point is an image extension. */
  lemma IsImageFileMeaning(fileName: string, ext: string)
    requires JsText.IsLastSegment(fileName, ext, '.')
    ensures IsImageFile(fileName) <==> JsText.Lower(ext) in ImageExtensions
  {
    JsText.LastSegmentUnique(fileName, ext, Extension(fileName), '.');
  }

  /** Matching ignores case: names equal up to case are judged alike. */
  lemma IsImageFileIgnoresCase(a: string, b: string)
    requires JsText.Lower(a) == JsText.Lower(b)
    ensures IsImageFile(a) == IsImageFile(b)
  {
    var ea, eb := Extension(a), Extension(b);
    JsText.LowerKeepsLastSegment(a, ea, '.');
    JsText.LowerKeepsLastSegment(b, eb, '.');
    JsText.LastSegmentUnique(JsText.Lower(a), JsText.Lower(ea), JsText.Lower(eb), '.');
  }

  /** Only the last segment counts: whatever precedes a point is ignored. */
  lemma IsImageFileLastSegmentOnly(stem: string, rest: string)
    ensures IsImageFile(stem + "." + rest) == IsImageFile(rest)
  {
    var name := stem + "." + rest;
    var ext := Extension(rest);
    JsText.LastSegmentAfterSeparator(stem, rest, ext, '.');
    IsImageFileMeaning(name, ext);
    IsImageFileMeaning(rest, ext);
  }

  /** A name without a point is tested as a whole. */
  lemma IsImageFileWithoutPoint(fileName: string)
    requires '.' !in fileName
    ensures IsImageFile(fileName) <==> JsText.Lower(fileName) in ImageExtensions
  {
    assert fileName[0..] == fileName;
    IsImageFileMeaning(fileName, fileName);
  }

  /** The empty name and a name ending in a point have an empty extension and are rejected. */
  lemma IsImageFileEmptyExtension(fileName: string)
    requires fileName == [] || fileName[|fileName| - 1] == '.'
    ensures !IsImageFile(fileName)
  {
    IsImageFileMeaning(fileName, []);
  }

  /** Lowering leaves a name of small letters alone. */
  lemma LowerKeepsSmallLetters(s: string)
    requires forall k :: 0 <= k < |s| ==> 'a' <= s[k] <= 'z'
    ensures JsText.Lower(s) == s
  {
  }

  /** Worked cases: a name without a point is tested as a whole. */
  lemma IsImageFileWholeNameExamples()
    ensures IsImageFile("png") && !IsImageFile("a")
  {
    assert JsText.Lower("png") in ImageExtensions by {
      LowerKeepsSmallLetters("png");
    }
    assert JsText.Lower("a") !in ImageExtensions by {
      LowerKeepsSmallLetters("a");
    }
    IsImageFileWithoutPoint("png");
    IsImageFileWithoutPoint("a");
  }

  /** Worked case: the extension decides. */
  lemma IsImageFileExtensionExample()
    ensures IsImageFile("photo.png")
  {
    assert JsText.Lower("png") in ImageExtensions by {
      LowerKeepsSmallLetters("png");
    }
    assert JsText.IsLastSegment("photo.png", "png", '.');
    IsImageFileMeaning("photo.png", "png");
  }

  /** Worked case: the extension is matched in any case. */
  lemma IsImageFileUpperCaseExample()
    ensures IsImageFile("Photo.JPEG")
  {
    assert JsText.Lower("JPEG") == "jpeg";
    assert JsText.IsLastSegment("Photo.JPEG", "JPEG", '.');
    IsImageFileMeaning("Photo.JPEG", "JPEG");
  }

  /** Worked case: an image extension before the last point does not count. */
  lemma IsImageFileDoubleExtensionExample()
    ensures !IsImageFile("x.png.txt")
  {
    assert JsText.Lower("txt") !in ImageExtensions by {
      LowerKeepsSmallLetters("txt");
    }
    assert JsText.IsLastSegment("x.png.txt", "txt", '.');
    IsImageFileMeaning("x.png.txt", "txt");
  }

  /** Worked cases: an empty extension is rejected. */
  lemma IsImageFileEmptyExamples()
    ensures !IsImageFile("") && !IsImageFile("photo.")
  {
    IsImageFileEmptyExtension("");
    IsImageFileEmptyExtension("photo.");
  }

  // ---------------------------------------------------------------------
  // formatFileSize
  // ---------------------------------------------------------------------

  /** The unit names, indexed by the power of 1024. */
  const SizeUnits: seq<string> := ["Bytes", "KB", "MB", "GB", "TB"]

  /** 1024 raised to `i`. */
  function Pow1024(i: nat): (p: nat)
    ensures p >= 1
  {
    if i == 0 then 1 else 1024 * Pow1024(i - 1)
  }

  lemma {:induction false} Pow1024Grows(i: nat, j: nat)
    requires i < j
    ensures Pow1024(i + 1) <= Pow1024(j)
    decreases j
  {
    if i + 1 < j {
      Pow1024Grows(i, j - 1);
    }
  }

  /**
   * `Math.floor(Math.log(bytes) / Math.log(1024))` over exact integers:
   * the power of 1024 that brackets `bytes`.
   */
  function UnitIndex(bytes: nat): (i: nat)
    requires bytes >= 1
    ensures Pow1024(i) <= bytes < Pow1024(i + 1)
    decreases bytes
  {
    if bytes < 1024 then 0 else 1 + UnitIndex(bytes / 1024)
  }

  /** At most one power of 1024 brackets a size. */
  lemma UnitIndexUnique(bytes: nat, i: nat, j: nat)
    requires Pow1024(i) <= bytes < Pow1024(i + 1)
    requires Pow1024(j) <= bytes < Pow1024(j + 1)
    ensures i == j
  {
    if i < j {
      Pow1024Grows(i, j);
    } else if j < i {
      Pow1024Grows(j, i);
    }
  }

  /** `sizes[i]` inside a string concatenation: past the table it reads `undefined`. */
  function UnitName(i: nat): (name: string)
    ensures name != []
    ensures name == "undefined" <==> i >= |SizeUnits|
  {
    if i < |SizeUnits| then SizeUnits[i] else "undefined"
  }

  /** `formatFileSize` as written: the unit index is not clamped to the table. */
  function FormatFileSize(bytes: nat): (text: string)
    ensures bytes == 0 ==> text == "0 Bytes"
    ensures bytes > 0 ==> text != [] && '1' <= text[0] <= '9'
  {
    if bytes == 0 then "0 Bytes"
    else
      var i := UnitIndex(bytes);
      JsNumber.RoundHundredthsAtLeastOne(bytes, Pow1024(i));
      JsNumber.HundredthsToString(JsNumber.RoundHundredths(bytes, Pow1024(i))) + " " + UnitName(i)
  }

  /**
   * Below 1024^5 bytes, the text is the size in the unit whose power of 1024
   * brackets it, rounded to hundredths (between 1 and 1024), one space, and
   * that unit's name.
   */
  lemma FormatFileSizeMeaning(bytes: nat, i: nat, h: nat)
    requires 1 <= bytes < Pow1024(|SizeUnits|)
    requires Pow1024(i) <= bytes < Pow1024(i + 1)
    requires JsNumber.IsNearestHundredth(h, bytes, Pow1024(i))
    ensures i < |SizeUnits|
    ensures 100 <= h <= 102400
    ensures FormatFileSize(bytes) == JsNumber.HundredthsToString(h) + " " + SizeUnits[i]
  {
    if i >= |SizeUnits| {
      Pow1024Grows(|SizeUnits| - 1, i);
    }
    UnitIndexUnique(bytes, UnitIndex(bytes), i);
    JsNumber.NearestHundredthUnique(h, JsNumber.RoundHundredths(bytes, Pow1024(i)), bytes, Pow1024(i));
    JsNumber.NearestHundredthBounds(h, bytes, Pow1024(i));
  }

  /** The text of a size whose unit index and rounded hundredths are known. */
  lemma FormatFileSizeAt(bytes: nat, i: nat, h: nat)
    requires bytes >= 1 && UnitIndex(bytes) == i
    requires JsNumber.RoundHundredths(bytes, Pow1024(i)) == h
    ensures FormatFileSize(bytes) == JsNumber.HundredthsToString(h) + " " + UnitName(i)
  {
  }

  /** `n` times 1024^i, plus less than 1024^i, for `n` from 1 to 1023, is in the unit of index `i`. */
  lemma UnitIndexOfScaled(n: nat, i: nat, r: nat)
    requires 1 <= n < 1024 && r < Pow1024(i)
    ensures n * Pow1024(i) + r >= 1 && UnitIndex(n * Pow1024(i) + r) == i
  {
    var p := Pow1024(i);
    var bytes := n * p + r;
    assert p <= bytes < Pow1024(i + 1) by {
      JsNumber.MulMonotone(p, 1, n);
      JsNumber.MulMonotone(p, n + 1, 1024);
    }
    UnitIndexUnique(bytes, UnitIndex(bytes), i);
  }

  /**
   * A whole number of units, from 1 to 1023, is written without decimals
   * followed by the unit's name, or by `undefined` past the table.
   */
  lemma FormatFileSizeWholeUnits(n: nat, i: nat)
    requires 1 <= n < 1024
    ensures FormatFileSize(n * Pow1024(i)) == JsNumber.NatToString(n) + " " + UnitName(i)
  {
    UnitIndexOfScaled(n, i, 0);
    JsNumber.RoundWholeQuotient(n, Pow1024(i));
    JsNumber.WholeHundredthsToString(n);
  }

  /**
   * A whole number of units and a half is written with the single decimal
   * `5`: the trailing zero of `toFixed(2)` is dropped.
   */
  lemma FormatFileSizeHalfUnits(n: nat, i: nat, half: nat)
    requires 1 <= n < 1024 && 2 * half == Pow1024(i)
    ensures FormatFileSize(n * Pow1024(i) + half) == JsNumber.NatToString(n) + ".5" + " " + UnitName(i)
  {
    UnitIndexOfScaled(n, i, half);
    JsNumber.RoundHalfQuotient(n, Pow1024(i), half);
    FormatFileSizeAt(n * Pow1024(i) + half, i, 100 * n + 50);
    JsNumber.HalfHundredthsToString(n);
  }

  /** Zero bytes is written `0 Bytes`. */
  lemma FormatFileSizeZero()
    ensures FormatFileSize(0) == "0 Bytes"
  {
  }

  /** 1024 bytes is written `1 KB`. */
  lemma FormatFileSizeOneKilobyte()
    ensures FormatFileSize(1024) == "1 KB"
  {
    var bytes := 1024;
    assert FormatFileSize(bytes) == JsNumber.NatToString(1) + " " + UnitName(1) by {
      assert bytes == 1 * Pow1024(1);
      FormatFileSizeWholeUnits(1, 1);
    }
    assert JsNumber.NatToString(1) == "1" && UnitName(1) == "KB";
  }

  /** 1536 bytes is written `1.5 KB`: the trailing zero of `1.50` is dropped. */
  lemma FormatFileSizeKilobyteAndAHalf()
    ensures FormatFileSize(1536) == "1.5 KB"
  {
    var bytes := 1536;
    assert FormatFileSize(bytes) == JsNumber.NatToString(1) + ".5" + " " + UnitName(1) by {
      assert bytes == 1 * Pow1024(1) + 512 && 2 * 512 == Pow1024(1);
      FormatFileSizeHalfUnits(1, 1, 512);
    }
    assert JsNumber.NatToString(1) == "1" && UnitName(1) == "KB";
  }

  /** 1073741824 bytes is written `1 GB`. */
  lemma FormatFileSizeOneGigabyte()
    ensures FormatFileSize(1073741824) == "1 GB"
  {
    var bytes := 1073741824;
    assert FormatFileSize(bytes) == JsNumber.NatToString(1) + " " + UnitName(3) by {
      assert bytes == 1 * Pow1024(3);
      FormatFileSizeWholeUnits(1, 3);
    }
    assert JsNumber.NatToString(1) == "1" && UnitName(3) == "GB";
  }

  /** From 1024^5 bytes on, the unit index runs past the table and the text ends in ` undefined`. */
  lemma FormatFileSizeBeyondTable(bytes: nat)
    requires bytes >= Pow1024(|SizeUnits|)
    ensures var text := FormatFileSize(bytes);
            |text| > 10 && text[|text| - 10..] == " undefined"
  {
    var i := UnitIndex(bytes);
    if i < |SizeUnits| {
      Pow1024Grows(i, |SizeUnits|);
    }
    var h := JsNumber.RoundHundredths(bytes, Pow1024(i));
    FormatFileSizeAt(bytes, i, h);
    var number := JsNumber.HundredthsToString(h);
    assert FormatFileSize(bytes) == number + " undefined";
  }

  /** 2 * 1024^5 bytes (2 PiB) is written `2 undefined`. */
  lemma FormatFileSizeTwoPebibytes()
    ensures FormatFileSize(2251799813685248) == "2 undefined"
  {
    var bytes := 2251799813685248;
    assert FormatFileSize(bytes) == JsNumber.NatToString(2) + " " + UnitName(5) by {
      assert bytes == 2 * Pow1024(5);
      FormatFileSizeWholeUnits(2, 5);
    }
    assert JsNumber.NatToString(2) == "2" && UnitName(5) == "undefined";
  }

  /** `formatFileSize` with the unit index clamped to the last entry of the table. */
  function FormatFileSizeClamped(bytes: nat): (text: string)
    ensures bytes == 0 ==> text == "0 Bytes"
    ensures bytes > 0 ==> text != [] && '1' <= text[0] <= '9'
  {
    if bytes == 0 then "0 Bytes"
    else
      var i := if UnitIndex(bytes) < |SizeUnits| then UnitIndex(bytes) else |SizeUnits| - 1;
      assert Pow1024(i) <= bytes by {
        if UnitIndex(bytes) >= |SizeUnits| {
          Pow1024Grows(i, UnitIndex(bytes));
        }
      }
      JsNumber.RoundHundredthsAtLeastOne(bytes, Pow1024(i));
      JsNumber.HundredthsToString(JsNumber.RoundHundredths(bytes, Pow1024(i))) + " " + SizeUnits[i]
  }

  /**
   * With the clamp every non-zero size is written in a unit of the table:
   * the largest unit not above the size, terabytes at most, with at least
   * 1.00 of it.
   */
  lemma FormatFileSizeClampedMeaning(bytes: nat, i: nat, h: nat)
    requires i < |SizeUnits| && Pow1024(i) <= bytes
    requires bytes < Pow1024(i + 1) || i == |SizeUnits| - 1
    requires JsNumber.IsNearestHundredth(h, bytes, Pow1024(i))
    ensures 100 <= h
    ensures FormatFileSizeClamped(bytes) == JsNumber.HundredthsToString(h) + " " + SizeUnits[i]
  {
    var u := UnitIndex(bytes);
    if bytes < Pow1024(i + 1) {
      UnitIndexUnique(bytes, u, i);
    } else if u < i {
      Pow1024Grows(u, i);
    }
    JsNumber.NearestHundredthUnique(h, JsNumber.RoundHundredths(bytes, Pow1024(i)), bytes, Pow1024(i));
    if h < 100 {
      JsNumber.MulMonotone(Pow1024(i), 2 * h + 1, 199);
    }
  }

  /** Below 1024^5 bytes the clamp changes nothing. */
  lemma FormatFileSizeClampedAgrees(bytes: nat)
    requires bytes < Pow1024(|SizeUnits|)
    ensures FormatFileSizeClamped(bytes) == FormatFileSize(bytes)
  {
    if bytes > 0 && UnitIndex(bytes) >= |SizeUnits| {
      Pow1024Grows(|SizeUnits| - 1, UnitIndex(bytes));
    }
  }

  /** With the clamp, a whole number of terabytes is written in terabytes without decimals, however many. */
  lemma FormatFileSizeClampedWholeTerabytes(n: nat)
    requires n >= 1
    ensures FormatFileSizeClamped(n * Pow1024(4)) == JsNumber.NatToString(n) + " TB"
  {
    var p := Pow1024(4);
    JsNumber.MulMonotone(p, 1, n);
    JsNumber.RoundWholeQuotient(n, p);
    FormatFileSizeClampedMeaning(n * p, 4, 100 * n);
    JsNumber.WholeHundredthsToString(n);
  }

  /** The decimal text of 2048, built one digit at a time. */
  lemma TextOf2048()
    ensures JsNumber.NatToString(2048) == "2048"
  {
    JsNumber.NatToStringAppendDigit(2, 0);
    JsNumber.NatToStringAppendDigit(20, 4);
    JsNumber.NatToStringAppendDigit(204, 8);
  }

  /** With the clamp, 2 * 1024^5 bytes is written `2048 TB`. */
  lemma FormatFileSizeClampedTwoPebibytes()
    ensures FormatFileSizeClamped(2251799813685248) == "2048 TB"
  {
    var bytes := 2251799813685248;
    assert FormatFileSizeClamped(bytes) == JsNumber.NatToString(2048) + " TB" by {
      assert bytes == 2048 * Pow1024(4) by {
        assert Pow1024(4) == 1099511627776;
      }
      FormatFileSizeClampedWholeTerabytes(2048);
    }
    TextOf2048();
  }

  // ---------------------------------------------------------------------
  // openImageFile: the native dialog's options
  // ---------------------------------------------------------------------

  /** The default dialog title, "choose an image file". */
  const DefaultTitle: string := "\U{9009}\U{62E9}\U{56FE}\U{7247}\U{6587}\U{4EF6}"

  /** The name of the image filter, "image files". */
  const ImageFilterName: string := "\U{56FE}\U{7247}\U{6587}\U{4EF6}"

  /** The extensions the native dialog is asked to offer (a list of its own, separate from `ImageExtensions`). */
  const DialogExtensions: seq<string> := ["jpg", "jpeg", "png", "gif", "bmp", "webp", "svg"]

  /** The starting directory proposed in development builds. */
  const DevDefaultPath: string := "./resource"

  /** The arguments sent to the native `open_file_dialog` command. */
  datatype NativeDialogOptions = NativeDialogOptions(title: string, filters: seq<FileFilter>, defaultPath: Option<string>)

  /** `options?.title || DefaultTitle`: a missing or empty title falls back to the default. */
  function DialogTitle(options: Option<FileDialogOptions>): (title: string)
    ensures title != []
    ensures title == DefaultTitle || (options.Some? && options.value.title == Some(title))
    ensures options.Some? && options.value.title.Some? && options.value.title.value != [] ==>
              title == options.value.title.value
  {
    if options.Some? && options.value.title.Some? && options.value.title.value != [] then
      options.value.title.value
    else
      DefaultTitle
  }

  /**
   * The options object built for the native dialog: the caller's title or
   * the default, the one fixed image filter (the caller's filters and
   * default name are not passed on), and a starting directory only in
   * development builds.
   */
  function BuildDialogOptions(options: Option<FileDialogOptions>, isDev: bool): (o: NativeDialogOptions)
    ensures o.title == DialogTitle(options)
    ensures o.filters == [FileFilter(ImageFilterName, DialogExtensions)]
    ensures o.defaultPath.Some? <==> isDev
    ensures o.defaultPath.Some? ==> o.defaultPath.value == DevDefaultPath
  {
    var o := NativeDialogOptions(DialogTitle(options), [FileFilter(ImageFilterName, DialogExtensions)], None);
    if isDev then o.(defaultPath := Some(DevDefaultPath)) else o
  }

  /** Two callers that differ only in their filters and default name get the same dialog. */
  lemma BuildDialogOptionsIgnoresFilters(a: FileDialogOptions, b: FileDialogOptions, isDev: bool)
    requires a.title == b.title
    ensures BuildDialogOptions(Some(a), isDev) == BuildDialogOptions(Some(b), isDev)
  {
  }

  /** Every file the native filter offers, whatever its stem, is one `isImageFile` accepts. */
  lemma DialogExtensionsAreImages(stem: string, ext: string)
    requires ext in DialogExtensions
    ensures IsImageFile(stem + "." + ext)
  {
    assert JsText.Lower(ext) in ImageExtensions by {
      LowerKeepsSmallLetters(ext);
    }
    IsImageFileWithoutPoint(ext);
    IsImageFileLastSegmentOnly(stem, ext);
  }

  // ---------------------------------------------------------------------
  // openImageFile: outcomes
  // ---------------------------------------------------------------------

  /** The running environment: inside the native shell or not, and a development build or not. */
  datatype Host = Host(isTauri: bool, isDev: bool)

  /**
   * What awaiting the native command gives: a file, nothing, a thrown
   * failure, or no answer ever (the command does not return).
   */
  datatype NativeOutcome = Picked(info: FileInfo) | Cancelled | Threw(message: string) | NoAnswer

  /** The part of a browser `File` that is read: its name and its size. */
  datatype PickedFile = PickedFile(name: string, size: nat)

  /**
   * What happens to the browser's file input: a change with a file, a change
   * without one, no change ever (the picker was dismissed), or a failure
   * while the input is being set up.
   */
  datatype BrowserOutcome = Chose(file: PickedFile) | NoFile | Abandoned | SetupThrew(message: string)

  /** The state the returned promise ends in. */
  datatype Settlement = Resolved(result: FileDialogResult) | Rejected(reason: string) | Pending

  /**
   * The three shapes of a result: success with data; failure with neither
   * data nor error (nothing picked); failure with an error. Never data and
   * an error together.
   */
  predicate IsWellFormed(r: FileDialogResult)
  {
    (r.success <==> r.data.Some?) && !(r.data.Some? && r.error.Some?)
  }

  /**
   * The native branch and the catch around it: a command that never
   * answers leaves the promise pending; every other outcome resolves it.
   */
  function NativeSettlement(outcome: NativeOutcome): (s: Settlement)
    ensures !s.Rejected?
    ensures s.Pending? <==> outcome.NoAnswer?
    ensures s.Resolved? ==> IsWellFormed(s.result)
    ensures s.Resolved? && s.result.success <==> outcome.Picked?
    ensures outcome.Picked? ==> s.result.data == Some(outcome.info)
    ensures s.Resolved? && s.result.error.Some? <==> outcome.Threw?
    ensures outcome.Threw? ==> s.result.error == Some(outcome.message)
  {
    match outcome
    case Picked(info) => Resolved(FileDialogResult(true, Some(info), None))
    case Cancelled => Resolved(FileDialogResult(false, None, None))
    case Threw(message) => Resolved(FileDialogResult(false, None, Some(message)))
    case NoAnswer => Pending
  }

  /**
   * The browser branch: the promise built inside the `try` and returned
   * without being awaited, so a failure while setting up the input rejects
   * it instead of reaching the `catch`.
   */
  function BrowserSettlement(outcome: BrowserOutcome, createObjectUrl: PickedFile -> string): (s: Settlement)
    ensures s.Resolved? ==> IsWellFormed(s.result) && s.result.error.None?
    ensures s.Resolved? && s.result.success <==> outcome.Chose?
    ensures outcome.Chose? ==>
              s.result.data == Some(FileInfo(outcome.file.name, createObjectUrl(outcome.file), Some(outcome.file.size)))
    ensures s.Pending? <==> outcome.Abandoned?
    ensures s.Rejected? <==> outcome.SetupThrew?
  {
    match outcome
    case Chose(file) =>
      Resolved(FileDialogResult(true, Some(FileInfo(file.name, createObjectUrl(file), Some(file.size))), None))
    case NoFile => Resolved(FileDialogResult(false, None, None))
    case Abandoned => Pending
    case SetupThrew(message) => Rejected(message)
  }

  /**
   * `openImageFile` as written. In the native shell the command is given
   * the options built for this host, and its outcome decides. In the
   * browser the outcome of the file input decides.
   */
  function OpenImageFile(
    options: Option<FileDialogOptions>,
    host: Host,
    invoke: NativeDialogOptions -> NativeOutcome,
    browser: BrowserOutcome,
    createObjectUrl: PickedFile -> string
  ): (s: Settlement)
    ensures s.Resolved? ==> IsWellFormed(s.result)
    ensures host.isTauri ==> s == NativeSettlement(invoke(BuildDialogOptions(options, host.isDev)))
    ensures !host.isTauri ==> s == BrowserSettlement(browser, createObjectUrl)
  {
    if host.isTauri then
      NativeSettlement(invoke(BuildDialogOptions(options, host.isDev)))
    else
      BrowserSettlement(browser, createObjectUrl)
  }

  /**
   * The outcome contract of the operation as written: it stays pending when
   * the command never answers or the browser picker is abandoned, it
   * rejects exactly when setting up the browser input fails, and otherwise
   * it resolves with the picked file as data and the native failure as
   * error.
   */
  lemma OpenImageFileOutcomes(
    options: Option<FileDialogOptions>,
    host: Host,
    invoke: NativeDialogOptions -> NativeOutcome,
    browser: BrowserOutcome,
    createObjectUrl: PickedFile -> string)
    ensures var s := OpenImageFile(options, host, invoke, browser, createObjectUrl);
            var native := invoke(BuildDialogOptions(options, host.isDev));
            && (s.Pending? <==> if host.isTauri then native.NoAnswer? else browser.Abandoned?)
            && (s.Rejected? <==> !host.isTauri && browser.SetupThrew?)
            && (s.Resolved? ==>
                  && (s.result.success <==> if host.isTauri then native.Picked? else browser.Chose?)
                  && (s.result.error.Some? <==> host.isTauri && native.Threw?)
                  && (host.isTauri && native.Picked? ==> s.result.data == Some(native.info))
                  && (!host.isTauri && browser.Chose? ==>
                        s.result.data == Some(FileInfo(browser.file.name, createObjectUrl(browser.file), Some(browser.file.size)))))
  {
  }

  /** Without a global `window` the code takes the browser branch, and a missing `document` rejects the promise. */
  lemma OpenImageFileRejectsOutsideBrowser(
    invoke: NativeDialogOptions -> NativeOutcome, createObjectUrl: PickedFile -> string)
    ensures OpenImageFile(None, Host(false, false), invoke, SetupThrew("document is not defined"), createObjectUrl)
         == Rejected("document is not defined")
  {
  }

  /**
   * `openImageFile` with the browser's promise awaited inside the `try`:
   * a rejection is caught and becomes a failure result like any other.
   */
  function OpenImageFileCaught(
    options: Option<FileDialogOptions>,
    host: Host,
    invoke: NativeDialogOptions -> NativeOutcome,
    browser: BrowserOutcome,
    createObjectUrl: PickedFile -> string
  ): (s: Settlement)
    ensures !s.Rejected?
    ensures s.Resolved? ==> IsWellFormed(s.result)
  {
    match OpenImageFile(options, host, invoke, browser, createObjectUrl)
    case Rejected(reason) => Resolved(FileDialogResult(false, None, Some(reason)))
    case other => other
  }

  /**
   * The outcome contract of the corrected operation: it ends pending only
   * when the command never answers or the browser picker is abandoned;
   * otherwise it resolves, with data
   * exactly when the host supplied a file and with an error exactly when
   * the host failed.
   */
  lemma OpenImageFileCaughtOutcomes(
    options: Option<FileDialogOptions>,
    host: Host,
    invoke: NativeDialogOptions -> NativeOutcome,
    browser: BrowserOutcome,
    createObjectUrl: PickedFile -> string)
    ensures var s := OpenImageFileCaught(options, host, invoke, browser, createObjectUrl);
            var native := invoke(BuildDialogOptions(options, host.isDev));
            && (s.Pending? <==> if host.isTauri then native.NoAnswer? else browser.Abandoned?)
            && (s.Resolved? ==>
                  && (s.result.success <==> if host.isTauri then native.Picked? else browser.Chose?)
                  && (s.result.error.Some? <==> if host.isTauri then native.Threw? else browser.SetupThrew?))
  {
  }

  /** Where no failure occurs, the corrected operation and the original agree. */
  lemma OpenImageFileCaughtAgrees(
    options: Option<FileDialogOptions>,
    host: Host,
    invoke: NativeDialogOptions -> NativeOutcome,
    browser: BrowserOutcome,
    createObjectUrl: PickedFile -> string)
    requires host.isTauri || !browser.SetupThrew?
    ensures OpenImageFileCaught(options, host, invoke, browser, createObjectUrl)
         == OpenImageFile(options, host, invoke, browser, createObjectUrl)
  {
  }

  // ---------------------------------------------------------------------
  // getFileUrl
  // ---------------------------------------------------------------------

  /** What the native path-to-URL conversion (including loading it) gives: a URL or a thrown failure. */
  datatype ConvertOutcome = Converted(url: string) | ConvertThrew(message: string)

  /**
   * `getFileUrl`: in the native shell the converted URL, or `null` when the
   * conversion fails; in the browser the path itself, which already is a
   * URL.
   */
  function GetFileUrl(filePath: string, host: Host, convertFileSrc: string -> ConvertOutcome): (url: Option<string>)
    ensures !host.isTauri ==> url == Some(filePath)
    ensures host.isTauri ==> (url.None? <==> convertFileSrc(filePath).ConvertThrew?)
    ensures host.isTauri && url.Some? ==> url.value == convertFileSrc(filePath).url
  {
    if host.isTauri then
      match convertFileSrc(filePath)
      case Converted(url) => Some(url)
      case ConvertThrew(_) => None
    else
      Some(filePath)
  }

  /** In the browser, a picked file's path resolves to the object URL created for it. */
  lemma PickedBrowserFileResolves(
    options: Option<FileDialogOptions>,
    host: Host,
    invoke: NativeDialogOptions -> NativeOutcome,
    file: PickedFile,
    createObjectUrl: PickedFile -> string,
    convertFileSrc: string -> ConvertOutcome)
    requires !host.isTauri
    ensures var s := OpenImageFileCaught(options, host, invoke, Chose(file), createObjectUrl);
            && s.Resolved? && s.result.data.Some?
            && GetFileUrl(s.result.data.value.path, host, convertFileSrc) == Some(createObjectUrl(file))
  {
  }
}
