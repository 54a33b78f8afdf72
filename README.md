# FileDialog, modelled in Dafny

This project models `FileDialog`, the file-access helper of a small Tauri/web
image viewer (src/utils/fileDialog.ts). It has four static operations:

- `isImageFile(fileName)` judges a name by the text after its last point,
  lowered, against seven image extensions;
- `formatFileSize(bytes)` writes a byte count below 1024^5 in the largest
  fitting unit of `Bytes, KB, MB, GB, TB` with at most two decimals (from
  1024^5 bytes on, the unit index runs past the table; see Findings);
- `openImageFile(options?)` opens the native dialog inside the Tauri shell, or
  a file `<input>` in a plain browser, and wraps the outcome in a
  `FileDialogResult`;
- `getFileUrl(filePath)` turns a path into a displayable URL.

The records of src/types/file.ts (`FileInfo`, `FileDialogOptions`,
`FileDialogResult`) are datatypes in `FileTypes`, with optional fields as
`Option`. All four operations are pure functions. The host is a parameter:
`Host(isTauri, isDev)` says where the code runs. The answers of the native
command, of the file input, of `URL.createObjectURL` and of `convertFileSrc`
are values or functions supplied by the caller.

Modules:

- `Wrappers` holds `Option`.
- `FileTypes` holds the records.
- `JsText` holds `split` with a one-character separator, its inverse `join`,
  and `toLowerCase`.
- `JsNumber` holds `toFixed(2)` as exact rounding to hundredths, and the
  number text that `parseFloat(...) + ' '` produces. It also holds a reader
  `ParseHundredths`, which reads the writer's text back (its inverse).
- `FileDialog` holds the operations.

How JavaScript is modelled:

- `split('.').pop()` is the last part of `JsText.Split`. `Split` is proved
  to give back the text after the last point, or the whole name when there is
  no point.
- `toLowerCase` is modelled on the ASCII letters only. The verdict of
  `isImageFile` is the same as with the full Unicode mapping. The only
  non-ASCII characters that lower to ASCII letters are the Kelvin sign (to
  `k`) and the dotted capital I (to `i` plus a combining dot). No extension
  contains a `k`. A combining dot never lowers to ASCII.
- `bytes / Math.pow(1024, i)` is exact in a double, because it is an integer
  divided by a power of two. `toFixed(2)` is therefore rounding to the nearest
  hundredth with ties going up (`JsNumber.RoundHundredths`). `parseFloat`
  followed by string concatenation drops trailing zeros and a bare point
  (`JsNumber.HundredthsToString`).
- `Math.floor(Math.log(bytes) / Math.log(1024))` is the exact index `i` with
  `1024^i <= bytes < 1024^(i+1)` (`FileDialog.UnitIndex`).
- `sizes[i]` past the end of the table is `undefined`. It is concatenated
  into the text as the word `undefined` (`FileDialog.UnitName`).

Three behaviours of the code are easy to misread; the model follows the code:

- `formatFileSize` does not clamp the unit index to the table. See Findings.
- `isImageFile` of a name without a point tests the whole name, so `"png"` is
  an image name. It is not simply "no extension, so false".
- A failure while the browser input is being set up is not caught. See
  Findings.

## Model

| member | source | states |
|---|---|---|
| JsText.Split | src/utils/fileDialog.ts:115 | `split` never returns an empty list, and no part holds the separator. Joining the parts gives the input back. The last part is the text after the last separator. |
| JsText.SplitJoin | src/utils/fileDialog.ts:115 | `split` undoes `join` for parts that hold no separator, so the two are inverses. |
| JsText.SplitAfterPlainText | src/utils/fileDialog.ts:115 | Splitting `a + sep + t`, where `a` holds no separator, gives `a` followed by the parts of `t`. |
| JsText.Lower | src/utils/fileDialog.ts:115 | `toLowerCase` on ASCII text: character by character, it changes exactly the capital letters `A`-`Z`, each to the small letter at the same place in the alphabet. |
| JsText.LowerKeepsLastSegment | src/utils/fileDialog.ts:115 | Lowering and then taking the text after the last point gives the same as taking it and then lowering. |
| FileDialog.Extension | src/utils/fileDialog.ts:115 | `split('.').pop()` is the text after the last point, or the whole name if it has none. |
| FileDialog.IsImageFile | src/utils/fileDialog.ts:113-117 | An accepted name ends in an extension of three or four characters holding no point. |
| FileDialog.IsImageFileMeaning | src/utils/fileDialog.ts:113-117 | A name is an image name exactly when its lowered text after the last point is one of jpg, jpeg, png, gif, bmp, webp, svg. This holds in both directions. |
| FileDialog.IsImageFileIgnoresCase | src/utils/fileDialog.ts:115-116 | Two names that are equal up to case get the same verdict. |
| FileDialog.IsImageFileLastSegmentOnly | src/utils/fileDialog.ts:115-116 | Whatever comes before a point is ignored. `stem.rest` is judged like `rest`. |
| FileDialog.IsImageFileWithoutPoint | src/utils/fileDialog.ts:115-116 | A name without a point is judged as a whole. |
| FileDialog.IsImageFileEmptyExtension | src/utils/fileDialog.ts:116 | The empty name, and any name ending in a point, is rejected. |
| FileDialog.IsImageFileWholeNameExamples | src/utils/fileDialog.ts:113-117 | `"png"` is accepted and `"a"` is rejected. |
| FileDialog.IsImageFileExtensionExample | src/utils/fileDialog.ts:113-117 | `"photo.png"` is accepted. |
| FileDialog.IsImageFileUpperCaseExample | src/utils/fileDialog.ts:115-116 | `"Photo.JPEG"` is accepted. |
| FileDialog.IsImageFileDoubleExtensionExample | src/utils/fileDialog.ts:115-116 | `"x.png.txt"` is rejected. |
| FileDialog.IsImageFileEmptyExamples | src/utils/fileDialog.ts:116 | `""` and `"photo."` are rejected. |
| FileDialog.UnitIndex | src/utils/fileDialog.ts:127 | The unit index `i` of a non-zero size satisfies `1024^i <= bytes < 1024^(i+1)`. |
| FileDialog.UnitIndexUnique | src/utils/fileDialog.ts:127 | Only one index brackets a size, so the index above is the only possible one. |
| FileDialog.UnitName | src/utils/fileDialog.ts:126-129 | `sizes[i]` as concatenated text is never empty. It is the word `undefined` exactly when `i` is past the five-entry table. |
| FileDialog.FormatFileSize | src/utils/fileDialog.ts:122-130 | Zero bytes is written `0 Bytes`. Any other size starts with a digit from 1 to 9: the number is never below 1 of its unit. |
| FileDialog.FormatFileSizeMeaning | src/utils/fileDialog.ts:122-130 | For `1 <= bytes < 1024^5`, the text is made of three parts. First, the size in the bracketing unit, rounded to the nearest hundredth, which is between 1.00 and 1024.00. Then one space. Then that unit's name from the table. |
| FileDialog.FormatFileSizeWholeUnits | src/utils/fileDialog.ts:125-129 | A size of exactly `n` units, with `1 <= n <= 1023`, is written as `n` without decimals, a space and the unit's name. |
| FileDialog.FormatFileSizeHalfUnits | src/utils/fileDialog.ts:129 | A size of `n` units and a half is written as `n.5`. The trailing zero of `toFixed(2)` is dropped. |
| FileDialog.FormatFileSizeZero | src/utils/fileDialog.ts:123 | Zero bytes is written `0 Bytes`. |
| FileDialog.FormatFileSizeOneKilobyte | src/utils/fileDialog.ts:122-130 | 1024 bytes is written `1 KB`. |
| FileDialog.FormatFileSizeKilobyteAndAHalf | src/utils/fileDialog.ts:122-130 | 1536 bytes is written `1.5 KB`. |
| FileDialog.FormatFileSizeOneGigabyte | src/utils/fileDialog.ts:122-130 | 1073741824 bytes is written `1 GB`. |
| FileDialog.FormatFileSizeBeyondTable | src/utils/fileDialog.ts:126-129 | As written, every size from 1024^5 bytes on is written with the unit `undefined`. |
| FileDialog.FormatFileSizeTwoPebibytes | src/utils/fileDialog.ts:126-129 | As written, 2 * 1024^5 bytes is written `2 undefined`. |
| FileDialog.FormatFileSizeClamped | src/utils/fileDialog.ts:122-130 | With the index clamped to the table, zero bytes is still `0 Bytes`, and any other size starts with a digit from 1 to 9. |
| FileDialog.FormatFileSizeClampedMeaning | src/utils/fileDialog.ts:122-130 | With the index clamped to the table, every non-zero size is written in a table unit. That unit is the largest one not above the size, terabytes at most, and the number is at least 1. |
| FileDialog.FormatFileSizeClampedAgrees | src/utils/fileDialog.ts:122-130 | Below 1024^5 bytes the clamped version writes exactly what the code writes. |
| FileDialog.FormatFileSizeClampedWholeTerabytes | src/utils/fileDialog.ts:126-129 | With the clamp, any whole number of terabytes is written in terabytes, however large. |
| FileDialog.FormatFileSizeClampedTwoPebibytes | src/utils/fileDialog.ts:126-129 | With the clamp, 2 * 1024^5 bytes is written `2048 TB`. |
| JsNumber.NatToString | src/utils/fileDialog.ts:129 | The decimal text of a whole number has at least one digit and only digits. It reads back as the number. It starts with `0` only for zero. |
| JsNumber.RoundHundredths | src/utils/fileDialog.ts:129 | `toFixed(2)` of an exact quotient gives the hundredth nearest to it. A tie goes to the larger one. |
| JsNumber.NearestHundredthUnique | src/utils/fileDialog.ts:129 | Only one hundredth is nearest. |
| JsNumber.RoundHundredthsAtLeastOne | src/utils/fileDialog.ts:129 | A quotient of at least 1 rounds to at least 1.00. |
| JsNumber.NearestHundredthBounds | src/utils/fileDialog.ts:129 | A quotient from 1 up to below 1024 rounds to a value from 1.00 to 1024.00. |
| JsNumber.HundredthsToString | src/utils/fileDialog.ts:129 | The text starts with a digit. It starts with `0` only for a value below 1, and then as `0` alone or `0.`. It has a point exactly when the fraction is not zero, and never ends in `0` after a point. |
| JsNumber.ParseHundredths | src/utils/fileDialog.ts:129 | Only text that starts and ends with a digit is read as a number. |
| JsNumber.HundredthsRoundTrip | src/utils/fileDialog.ts:129 | Reading back the text of `h / 100` gives `h`. No value is lost when trailing zeros are dropped. |
| FileDialog.DialogTitle | src/utils/fileDialog.ts:25 | The title is the caller's title when it is non-empty. Otherwise it is the default title. It is never empty. |
| FileDialog.BuildDialogOptions | src/utils/fileDialog.ts:10-32 | The native dialog gets that title and the single fixed seven-extension image filter. It gets `./resource` as its starting directory exactly in development builds. |
| FileDialog.BuildDialogOptionsIgnoresFilters | src/utils/fileDialog.ts:24-27 | The caller's filters and default name do not change what is sent to the native dialog. |
| FileDialog.DialogExtensionsAreImages | src/utils/fileDialog.ts:10-15 | Every file the native filter offers, whatever its stem, passes `isImageFile`. |
| FileDialog.NativeSettlement | src/utils/fileDialog.ts:34-45 | The native branch never rejects. A command that never answers leaves the promise pending. A picked file gives success with exactly that data. No result gives a failure with neither data nor error. A thrown failure gives a failure carrying its message. |
| FileDialog.BrowserSettlement | src/utils/fileDialog.ts:48-80 | A chosen file resolves to success, with its name and size and the created URL as path. No file resolves to a failure without error. A dismissed picker never settles. A failure while setting up the input rejects the promise. |
| FileDialog.OpenImageFile | src/utils/fileDialog.ts:7-88 | In the shell, the command gets the options built for this host, and its outcome decides. In the browser, the file input decides. A result never carries both data and an error. |
| FileDialog.OpenImageFileOutcomes | src/utils/fileDialog.ts:7-88 | As written, the operation stays pending exactly when the command never answers or the browser picker is dismissed. It rejects exactly when setting up the browser input fails. Otherwise it resolves: success exactly when a file was picked, with that file as data; an error exactly when the native command threw. |
| FileDialog.OpenImageFileRejectsOutsideBrowser | src/utils/fileDialog.ts:46-87 | As written, with no `window` and no `document` the returned promise is rejected. It is not turned into a failure result. |
| FileDialog.OpenImageFileCaught | src/utils/fileDialog.ts:82-87 | With the browser promise awaited inside the `try`, the operation never rejects. Every result is well formed. |
| FileDialog.OpenImageFileCaughtOutcomes | src/utils/fileDialog.ts:34-87 | The corrected operation stays pending only when the command never answers or the browser picker is dismissed. Otherwise it resolves. It has data exactly when the host supplied a file, and an error exactly when the host failed. |
| FileDialog.OpenImageFileCaughtAgrees | src/utils/fileDialog.ts:46-87 | Where nothing fails during setup, the corrected operation gives what the code gives. |
| FileDialog.GetFileUrl | src/utils/fileDialog.ts:93-108 | In the browser the path itself is returned. In the shell the converted URL is returned, or `null` exactly when the conversion fails. |
| FileDialog.PickedBrowserFileResolves | src/utils/fileDialog.ts:53-62 | In the browser, the path of a picked file resolves to the object URL that was created for it. |

## Left out

- The DOM work of `openImageFile` is not modelled: creating the `<input>`, setting `type` and `accept`, the `onclick` reset of `value`, and `click()`. The model only says which outcome the input produces.
- The re-selection quirk is not modelled. Clearing the value lets the same file be chosen twice, but each call is modelled on its own.
- `URL.createObjectURL` is an uninterpreted function `PickedFile -> string`.
- The native calls are parameters: the dynamic `import('@tauri-apps/api/core')`, `invoke('open_file_dialog', ...)` and `convertFileSrc`. A failure of the import or of the conversion is one `ConvertThrew` outcome.
- The `__TAURI__` marker and `import.meta.env.DEV` are the two fields of `Host`.
- `console.error` in `getFileUrl` is left out. It is output only.
- FileDialog.NativeSettlement: the value thrown is stored in `error` as it is, while the model keeps only a message string.
- FileDialog.NativeSettlement: the native answer is tested for truthiness. The model has only a file or nothing, because the command returns a `FileInfo` object or `null`.
- FileDialog.BrowserSettlement: a failure inside the `onchange` handler is not modelled. It would be thrown from an event handler and leave the promise pending.
- FileDialog.FormatFileSize: sizes are whole non-negative numbers. Negative, fractional, `NaN` and infinite inputs are not modelled.
- JsNumber.RoundHundredths: the quotient is exact for sizes below 2^53 bytes, the largest whole numbers a double holds exactly. Above that, the model rounds the exact size rather than the double nearest to it.
- FileDialog.UnitIndex: the exact index is modelled, not the IEEE results of `Math.log` and `Math.pow`. With correctly rounded doubles the quotient of logarithms is exact at the powers 1024^1 to 1024^7, but it rounds up to 5.0 for 1024^5 - 1, 1024^5 - 2 and 1024^5 - 3 bytes. There the code writes `1 undefined`, while `FileDialog.FormatFileSizeMeaning` writes `1024 TB`. The same happens just below 1024^6 and 1024^7.
- JsText.Lower: only the ASCII letters are lowered. JavaScript's `toLowerCase` also lowers other letters, and does not always keep the length: the dotted capital I (U+0130) lowers to two code units. The verdict of `isImageFile` is unaffected, as explained above.
- src-tauri/src/lib.rs is not part of this model. It holds the native dialog plugin, a polling loop and file metadata. What the command answers is the parameter `invoke`; a command that never returns is the outcome `NoAnswer`.
- The shipped command as read from src-tauri/src/lib.rs:46-87 never returns when the user cancels: the callback stores `None`, the loop waits for `is_some()`, and the arm `None => return Ok(None)` cannot be reached. With that command, a cancelled native dialog is the outcome `NoAnswer` (pending), not `Cancelled`. The model does not derive this from the Rust code.
- src-tauri/src/lib.rs:24 declares `filters` as a list of `(name, extensions)` pairs, while src/utils/fileDialog.ts:10-15 sends `{ name, extensions }` objects. Whether the command's argument decoding accepts them is not modelled; a rejection would be the outcome `Threw`.
- src/config.ts, vite.config.ts and the two router files are not part of this model. They are configuration with no logic.

## Findings

| source | as written | input that shows it | evidently intended | confidence | as-written member | corrected member |
|---|---|---|---|---|---|---|
| src/utils/fileDialog.ts:126-129 | The unit index is not clamped to the five-entry table, so `sizes[i]` reads past its end. | `formatFileSize(2251799813685248)`, which is 2 * 1024^5 bytes, gives `"2 undefined"`. | The largest unit is used for anything larger, giving `"2048 TB"`. | not executed | FileDialog.FormatFileSizeTwoPebibytes | FileDialog.FormatFileSizeClampedTwoPebibytes |
| src/utils/fileDialog.ts:46-87 | The browser branch returns `new Promise(...)` from inside the `try` without `await`. A throw inside the executor rejects that promise, and the `catch` never runs. | `openImageFile()` where there is no `window` and no `document`, as in server-side rendering or a worker. `document.createElement` throws `ReferenceError`, and the call rejects. | Every failure becomes `{ success: false, error }`, as the `catch` block intends. | not executed | FileDialog.OpenImageFileRejectsOutsideBrowser | FileDialog.OpenImageFileCaught |
