# BiangBiang Hanzi — a Dafny model of the Android app's own logic

BiangBiang Hanzi reads Chinese text from the camera or from pasted input. It
extracts the Hanzi, shows their pinyin and can translate them. Most of the app
hands work to platform libraries: CameraX, ML Kit text recognition and
translation, and pinyin4j. This project models the three pieces of logic that
the Android app implements itself, and proves what they promise.

- **Hanzi extraction** (`hanzi_extractor.dfy`, module `HanziExtractor`).
  `HanziExtractor.extract` finds every match of `[\u4E00-\u9FFF]+` in a
  string. It joins the matches with an empty separator and returns null when
  nothing matched. The model keeps the same structure: `Matches` gives the
  maximal Hanzi runs, `Join` concatenates them and `Extract` maps an empty
  result to `None`. It is proved equal to `HanziOf`, the plain character
  filter. Kotlin strings are UTF-16. Here a string is a sequence of Unicode
  scalar values. Neither a surrogate nor a character above U+FFFF lies in
  U+4E00..U+9FFF, so both views give the same result.
- **OCR post-processing and the live-frame throttle** (`ocr_service.dfy`,
  module `OcrService`). A recognition result is blocks → lines → elements.
  Each element has a text and an optional integer bounding box.
  `RecognizeHanzi` flattens the result and keeps one `OcrBox` per element
  that has Hanzi and a bounding box. `recognizeHanzi` and the live analyzer's
  success listener contain the same chain of code, so both use this one
  function. The pinyin converter is the function parameter `pinyin`. The
  class `LiveOcrAnalyzer` holds `lastProcessedTime` and a log of the
  `onResult` calls. Its method `Analyze` takes the clock reading and the
  outcome of the recognition as arguments. The class `ImageProxy` counts the
  calls to `close()`.
- **Settings helpers** (`settings_mode_view.dfy`, module
  `SettingsModeView`). A locale is a pair (language code, display name).
  `AllLanguages` is the `filter` / `distinctBy` / `sortedBy` chain over the
  available locales. `CurrentLanguageName` and `ChineseTypeLabel` are the two
  lookups. `wrappers.dfy` holds the `Option` type that stands for Kotlin's
  nullable values.

## Model

Paths are relative to the repository root.

| member | source | states |
|---|---|---|
| `HanziExtractor.Matches` | android/app/src/main/java/dev/veeso/biangbianghanzi/services/HanziExtractor.kt:7-10 | every match of the pattern is a non-empty string of characters in U+4E00..U+9FFF |
| `HanziExtractor.HanziOf` | android/app/src/main/java/dev/veeso/biangbianghanzi/services/HanziExtractor.kt:7-13 | the reference filter has only in-range characters and is no longer than its input; it is empty exactly when the input has no Hanzi |
| `HanziExtractor.JoinedMatchesAreHanzi` | android/app/src/main/java/dev/veeso/biangbianghanzi/services/HanziExtractor.kt:10-13 | joining the maximal runs with "" gives exactly the in-range subsequence of the input |
| `HanziExtractor.Extract` | android/app/src/main/java/dev/veeso/biangbianghanzi/services/HanziExtractor.kt:5-17 | null exactly when no character of the input is in U+4E00..U+9FFF; otherwise the non-empty in-range subsequence |
| `HanziExtractor.HanziOfIsInRangeSubsequence` | android/app/src/main/java/dev/veeso/biangbianghanzi/services/HanziExtractor.kt:10-13 | the filter result is a subsequence of the input, and each character occurs as often as in the input if it is Hanzi and never otherwise |
| `HanziExtractor.ExtractKeepsExactlyTheHanzi` | android/app/src/main/java/dev/veeso/biangbianghanzi/services/HanziExtractor.kt:7-16 | a non-null result has only in-range characters, keeps order and multiplicity, inserts nothing and is no longer than the input |
| `HanziExtractor.ExtractAllHanzi` | android/app/src/main/java/dev/veeso/biangbianghanzi/services/HanziExtractor.kt:7-16 | a non-empty input made only of Hanzi is returned unchanged |
| `HanziExtractor.ExtractIdempotent` | android/app/src/main/java/dev/veeso/biangbianghanzi/services/HanziExtractor.kt:7-16 | extracting from a non-null result returns that result again |
| `HanziExtractor.ExtractAppend` | android/app/src/main/java/dev/veeso/biangbianghanzi/services/HanziExtractor.kt:10-13 | with null read as "", extract(a + b) = extract(a) + extract(b) |
| `HanziExtractor.ExtractJoinsRunsAcrossGap` | android/app/src/main/java/dev/veeso/biangbianghanzi/services/HanziExtractor.kt:10-13 | two Hanzi runs separated by text without Hanzi come back joined with nothing between them |
| `HanziExtractor.ExtractMixedText` | android/app/src/test/java/dev/veeso/biangbianghanzi/HanziExtractorTest.kt:11-14 | "你好Pizza我爱你" gives "你好我爱你" |
| `HanziExtractor.ExtractNoHanzi` | android/app/src/test/java/dev/veeso/biangbianghanzi/HanziExtractorTest.kt:17-20 | "Pizza123" gives null |
| `OcrService.ToBox` | android/app/src/main/java/dev/veeso/biangbianghanzi/services/OcrService.kt:39-51 | an element gives a box exactly when its text has Hanzi and it has a bounding box; the box's Hanzi is a non-empty run of in-range characters |
| `OcrService.MapNotNull` | android/app/src/main/java/dev/veeso/biangbianghanzi/services/OcrService.kt:39-52 | there are never more boxes than elements |
| `OcrService.RecognizeHanzi` | android/app/src/main/java/dev/veeso/biangbianghanzi/services/OcrService.kt:36-52 | the box count of a result is at most its element count |
| `OcrService.KeptFrom` | android/app/src/main/java/dev/veeso/biangbianghanzi/services/OcrService.kt:39-51 | the positions of the elements that give a box, strictly increasing, each kept, and every kept position listed |
| `OcrService.MapNotNullLength` | android/app/src/main/java/dev/veeso/biangbianghanzi/services/OcrService.kt:39-52 | one box per kept element |
| `OcrService.MapNotNullAt` | android/app/src/main/java/dev/veeso/biangbianghanzi/services/OcrService.kt:39-52 | box k is built from the k-th kept element |
| `OcrService.BoxesFollowKeptElements` | android/app/src/main/java/dev/veeso/biangbianghanzi/services/OcrService.kt:36-52 | boxes follow block → line → element order, one per element with Hanzi and a bounding box and none for any other element; each holds extract(text), the pinyin of that Hanzi, and left, top, width and height of the box |
| `OcrService.BoxesHoldHanzi` | android/app/src/main/java/dev/veeso/biangbianghanzi/services/OcrService.kt:40-41 | every box holds non-empty Hanzi and the pinyin of exactly that Hanzi |
| `OcrService.BoxesFollowBlockOrder` | android/app/src/main/java/dev/veeso/biangbianghanzi/services/OcrService.kt:36-38 | the boxes of blocks a + b are the boxes of a followed by those of b |
| `OcrService.LiveOcrAnalyzer.constructor` | android/app/src/main/java/dev/veeso/biangbianghanzi/services/OcrService.kt:59-71 | `lastProcessedTime` starts at 0, nothing accepted or delivered yet |
| `OcrService.LiveOcrAnalyzer.Analyze` | android/app/src/main/java/dev/veeso/biangbianghanzi/services/OcrService.kt:74-113 | the frame is closed exactly once on every path; within 1000 ms of `lastProcessedTime` nothing else changes; otherwise `lastProcessedTime` becomes `now`, even for a frame with no image; only a successful recognition of a frame with an image calls `onResult`, with `RecognizeHanzi` of the result and the image size; the throttle invariant is kept |
| `OcrService.SpacedApart` | android/app/src/main/java/dev/veeso/biangbianghanzi/services/OcrService.kt:76-80 | in a list of times each at least 1000 ms after the previous one, times j - i steps apart differ by at least 1000·(j - i) ms |
| `OcrService.AcceptedFramesApart` | android/app/src/main/java/dev/veeso/biangbianghanzi/services/OcrService.kt:71-80 | any two frames that passed the throttle are at least 1000 ms apart, and the first came at least 1000 ms after time 0 |
| `SettingsModeView.NonBlank` | android/app/src/main/java/dev/veeso/biangbianghanzi/ui/screens/SettingsModeView.kt:28 | keeps exactly the locales whose display name is not blank |
| `SettingsModeView.FindIndex` | android/app/src/main/java/dev/veeso/biangbianghanzi/ui/screens/SettingsModeView.kt:109 | the position found is the first that satisfies the predicate; none is found only when no element satisfies it |
| `SettingsModeView.DistinctFromKeepsFirst` | android/app/src/main/java/dev/veeso/biangbianghanzi/ui/screens/SettingsModeView.kt:29 | every kept locale is the first one of its display name in the input |
| `SettingsModeView.DistinctFromDistinctNames` | android/app/src/main/java/dev/veeso/biangbianghanzi/ui/screens/SettingsModeView.kt:29 | no two kept locales share a display name |
| `SettingsModeView.DistinctFromCovers` | android/app/src/main/java/dev/veeso/biangbianghanzi/ui/screens/SettingsModeView.kt:29 | every display name of the input is kept |
| `SettingsModeView.Insert` | android/app/src/main/java/dev/veeso/biangbianghanzi/ui/screens/SettingsModeView.kt:30 | inserting into a list sorted by display name keeps it sorted and adds exactly that one locale |
| `SettingsModeView.SortedByDisplayLanguage` | android/app/src/main/java/dev/veeso/biangbianghanzi/ui/screens/SettingsModeView.kt:30 | the result is sorted, non-decreasing, by display name and is a permutation of the input |
| `SettingsModeView.FirstNamedNonBlank` | android/app/src/main/java/dev/veeso/biangbianghanzi/ui/screens/SettingsModeView.kt:28-29 | filtering out blank names does not change the first locale of a non-blank name |
| `SettingsModeView.AllLanguagesNotBlank` | android/app/src/main/java/dev/veeso/biangbianghanzi/ui/screens/SettingsModeView.kt:27-30 | no entry of the language list has a blank display name |
| `SettingsModeView.AllLanguagesDistinctNames` | android/app/src/main/java/dev/veeso/biangbianghanzi/ui/screens/SettingsModeView.kt:27-30 | no two entries of the language list share a display name |
| `SettingsModeView.AllLanguagesFirstOfEachName` | android/app/src/main/java/dev/veeso/biangbianghanzi/ui/screens/SettingsModeView.kt:27-30 | each entry is the first available locale with its display name |
| `SettingsModeView.AllLanguagesCoverEveryName` | android/app/src/main/java/dev/veeso/biangbianghanzi/ui/screens/SettingsModeView.kt:27-30 | every non-blank display name of an available locale has an entry |
| `SettingsModeView.CurrentLanguageName` | android/app/src/main/java/dev/veeso/biangbianghanzi/ui/screens/SettingsModeView.kt:108-111 | the display name of the first locale whose code is `current`, or `current` itself when no locale has that code |
| `SettingsModeView.ChineseTypeLabel` | android/app/src/main/java/dev/veeso/biangbianghanzi/ui/screens/SettingsModeView.kt:113-119 | "Simplified Chinese" exactly for `simplified_chinese`, "Traditional Chinese" exactly for `traditional_chinese`, "Unknown" exactly for anything else (the constants of AppSettingsStore.kt:10-11 are distinct) |

## Left out

- Pinyin conversion (PinyinConverter.kt) wraps pinyin4j's dictionary, which is not part of this model. It is the parameter `pinyin: string -> string`. Nothing is assumed about it beyond being a function.
- Text recognition and translation by ML Kit are asynchronous foreign services. A recognition result is an input value. Translation (TextModeViewModel.kt) is not modelled.
- `OcrService.LiveOcrAnalyzer.Analyze`: the recognition completes inside the call. In the app its listeners run later and may interleave with later frames. The model does not capture that order. The `rotationDegrees` passed to `InputImage` is not modelled, and the delivered size is the media image's width and height.
- `System.currentTimeMillis()` is the argument `now`. `lastProcessedTime` and `now` are unbounded integers. A 64-bit `Long` overflow of `now - lastProcessedTime` is not modelled; it cannot happen with real clock readings.
- `OcrService.Rect`: `width()` and `height()` are unbounded differences. The 32-bit overflow of `right - left` is not modelled; the values are pixel coordinates.
- `SettingsModeView.LessEq` compares strings character by character. Kotlin compares UTF-16 code units. The two orders agree on the Basic Multilingual Plane only. They differ for display names with characters above U+FFFF.
- `SettingsModeView.SortedByDisplayLanguage` is a stable insertion sort. Stability is not proved, because `distinctBy` has already made every display name unique.
- `SettingsModeView.IsWhitespace` spells out the JVM's `Character.isWhitespace` / `Character.isSpaceChar` set for the Unicode version Android ships. It is not derived from the platform.
- The rendering of each entry with `getDisplayLanguage(Locale.getDefault())` (SettingsModeView.kt:71) and the composable state (`languageSelectExpanded`) are UI. They are not modelled.
- Settings persistence in AppSettingsStore.kt is DataStore I/O over `Flow`. Its only logic is falling back to a default when a key is missing. Only its two constants are used here.
- The overlay geometry in Ocr.kt is floating-point scaling and drawing. The camera plumbing in CameraModeView.kt and CameraUtils.kt covers binding, permissions and storage. The other UI files (TextModeView.kt, MainScreen.kt, MainActivity.kt) are composition only. None of these is modelled.
- The iOS app (the Swift sources) duplicates the same features on Apple's frameworks and is not modelled.
