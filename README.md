# EPUB reader controller, modelled in Dafny

This project models the sequential logic of the `EPUBReader` browser widget in
`reader.js`. The reader accepts an uploaded EPUB file and opens the package
document. It joins the package's manifest (id → href) with its spine (the
reading order) to get the chapter list. It then shows one chapter at a time,
with previous/next navigation and a font choice. The archive reader (JSZip), the
host's XML/HTML parser and the page itself are not modelled. They appear as
inputs: the package's contents, a file oracle, and a markup oracle giving a
chapter's title text and first heading text.

Modules, one per component of the controller:

- `Text`: decimal rendering of numbers (`${n}`), `endsWith`, `trim` over ECMAScript's whitespace, ASCII whitespace as the DOM defines it, and ASCII lower-casing.
- `Paths`: `resolvePath`, which puts an href in the directory of the package document.
- `Upload`: the upload checks, in order: a file was chosen, the name ends in `.epub` ignoring case, the size is at most 50 MiB.
- `Fonts`: the settings record and the class-list update of the `changeFontFamily` that takes effect. The second definition (reader.js:121-146) replaces the first (reader.js:56-71), because a later method of the same name in a JavaScript class body overrides the earlier one.
- `Navigation`: the chapter index after a jump, a "previous" or a "next", and the view `updateNavigation` derives: both disabled flags and the "Chapter k of n" label.
- `Package`: the manifest map, the spine walk as a specification function, and the `forEach` that fills the map as a method with a loop.
- `Reader`: class `EpubReader`. Its fields are `chapters`, `currentChapter`, `settings`, the page's class set, the navigation view, the shown error messages and whether the reader is visible. Its methods follow the source's methods. `ParseEPUB` holds the spine loop and is proved against `Package.SpineChapters`.

Behaviour of the code that the model keeps:

- **Missing attributes.** A missing `id` or `idref` attribute reads as `null`, which becomes the property key `"null"`. A missing or empty `href` is falsy, so its spine entry is skipped.
- **When the list is emptied.** `parseEPUB` empties the chapter list before it reads `container.xml`. So a file that opens as a ZIP but has no usable package document leaves the list empty. A file that JSZip cannot open at all never reaches `parseEPUB`, and the previous book's list stays.
- **Stale index.** `currentChapter` is reset only when the new book has at least one chapter. After a book with no loadable chapters, the index keeps its old value. `EpubReader.Valid` therefore only constrains the index while chapters exist.
- **Unknown font families.** Only `font-inter`, `font-poppins` and `font-default` are ever removed. The class of any other family stays on the page once added (`Fonts.UnknownFamilyAccumulates`).
- **Families with whitespace.** For a family such as "Open Sans", `classList.add` throws at reader.js:133. By then the family has been recorded and the managed classes removed, so none of the three managed font classes is left; classes of earlier unmanaged families stay (`Fonts.WhitespaceFamilyOnlyClears`).

## Model

| member | source | states |
|---|---|---|
| `Text.NatToString` | reader.js:299-301 | the decimal form of a count is non-empty, all digits, and starts with 0 only for zero |
| `Text.DigitsValueOfNatToString` | reader.js:299-301 | reading the decimal form back gives the number, so rendering loses nothing |
| `Text.NatToStringInjective` | reader.js:232 | different numbers render differently, so default titles "Chapter N" are distinct |
| `Text.EndsWithIff` | reader.js:153 | `endsWith` holds exactly when the string is some prefix followed by the suffix |
| `Text.AsciiLower` | reader.js:153 | lower-casing keeps the length and maps each character on its own |
| `Text.AsciiLowerIdempotent` | reader.js:153 | lower-casing twice is lower-casing once |
| `Text.EndsWith` | reader.js:153 | `endsWith`; characterised by `Text.EndsWithIff` |
| `Text.Trim` | reader.js:235 | `String.prototype.trim`; characterised by `Text.TrimShape`, `Text.TrimEnds`, `Text.TrimKeepsClean` and `Text.TrimIdempotent` |
| `Text.TrimStart` | reader.js:235 | what is left is a suffix that starts with a non-whitespace character, and everything dropped is whitespace |
| `Text.TrimEnd` | reader.js:235 | what is left is a prefix that ends with a non-whitespace character, and everything dropped is whitespace |
| `Text.TrimShape` | reader.js:235 | the trimmed title is a slice of the original with only whitespace around it |
| `Text.TrimEnds` | reader.js:235 | the trimmed title neither starts nor ends with whitespace |
| `Text.TrimKeepsClean` | reader.js:235 | a string with no whitespace at either end is left unchanged |
| `Text.TrimIdempotent` | reader.js:235 | trimming twice is trimming once |
| `Paths.LastIndexOf` | reader.js:249 | -1 exactly when the character is absent, otherwise its position with no later occurrence |
| `Paths.BaseDir` | reader.js:249 | the directory part of the package document's path; characterised by `Paths.BaseDirShape` and `Paths.BaseDirByTrimming` |
| `Paths.ResolvePath` | reader.js:248-251 | `resolvePath`; characterised by `Paths.ResolvePathShape` and `Paths.ResolvedSibling` |
| `Paths.BaseDirByTrimming` | reader.js:249 | the directory taken up to the last `/` equals the path trimmed from the right until a `/` ends it |
| `Paths.BaseDirShape` | reader.js:249 | the directory is a prefix of the path, empty or ending in `/`, with no `/` after it; empty exactly when the path has no `/` |
| `Paths.ResolvePathShape` | reader.js:248-251 | the resolved path is the package directory followed by the href, so it ends with the href; with no `/` in the base it is the href itself |
| `Paths.ResolvedSibling` | reader.js:248-251 | a file name without `/` resolves into the same directory as the package document |
| `Upload.LowerEndsWithEpub` | reader.js:153 | the lower-cased name ends in ".epub" exactly when its last five characters match ".epub" ignoring case |
| `Upload.CheckUpload` | reader.js:149-162 | no file: nothing; otherwise rejected as not EPUB exactly when the extension fails (whatever the size); too large exactly when the extension passes and the size exceeds 52428800; accepted exactly when both pass |
| `Upload.RejectionMessage` | reader.js:153-161 | a message is shown exactly for the two rejections |
| `Upload.CheckUploadIgnoresCase` | reader.js:153 | the verdict depends on the name only through its lower-cased form |
| `Upload.SizeLimitIsInclusive` | reader.js:159 | exactly 50·1024·1024 bytes is accepted, one more byte is too large |
| `Fonts.FontClassFor` | reader.js:132-140 | the class added for a family; characterised by `Fonts.FamilyFromClass`, `Fonts.FontClassForInjective` and `Fonts.FontClassManagedIff` |
| `Fonts.FontClassAccepted` | reader.js:133 | whether `classList.add` takes the family's class: it refuses a token that holds ASCII whitespace; characterised by `Fonts.FontClassAcceptedIff` |
| `Fonts.FontClassAcceptedIff` | reader.js:133 | `classList.add` accepts the family's class exactly when the family holds no ASCII whitespace |
| `Fonts.FontClassManagedIff` | reader.js:129-140 | a family's class is among the removed ones exactly for default, inter and poppins |
| `Fonts.FontClasses` | reader.js:129-140 | afterwards the other managed classes are absent, every other class is present exactly when it was before, and the family's class is present whenever `classList.add` accepts it |
| `Fonts.WhitespaceFamilyOnlyClears` | reader.js:129-133 | a family holding ASCII whitespace only removes the managed classes, because the add throws |
| `Fonts.FamilyFromClass` | reader.js:132-140 | dropping "font-" from a family's class gives the family back |
| `Fonts.FontClassForInjective` | reader.js:132-140 | distinct families add distinct classes |
| `Fonts.FontClassesIdempotent` | reader.js:129-140 | applying the same family again changes nothing |
| `Fonts.OneManagedClass` | reader.js:129-140 | after a known family, its class is the only managed class left |
| `Fonts.LastChoiceWins` | reader.js:129-140 | after a known family, a second choice gives the same classes as if only the second had been made |
| `Fonts.UnknownFamilyAccumulates` | reader.js:129-133 | for every class set and every later family, the class of an accepted family outside the known ones survives the later choice |
| `Navigation.GoTo` | reader.js:270-273 | the index after `goToChapter`; characterised by `Navigation.GoToSpec` |
| `Navigation.Prev` | reader.js:304-308 | the index after `previousChapter`; characterised by `Navigation.StepSpec` and `Navigation.StepsInverse` |
| `Navigation.Next` | reader.js:310-314 | the index after `nextChapter`; characterised by `Navigation.StepSpec` and `Navigation.StepsInverse` |
| `Navigation.NavFor` | reader.js:297-301 | the flags and label `updateNavigation` writes; characterised by `Navigation.DisabledIffNoMove` |
| `Navigation.PageInfo` | reader.js:299-301 | the "Chapter k of n" label; characterised by `Navigation.PageInfoInjective` |
| `Navigation.GoToSpec` | reader.js:270-273 | a jump into range lands on the index; any other jump changes nothing; the index stays in range |
| `Navigation.StepSpec` | reader.js:304-314 | from a valid index, next adds exactly one unless at the last chapter and previous subtracts exactly one unless at the first; both stay in range |
| `Navigation.StepsInverse` | reader.js:304-314 | previous undoes a next that moved, and next undoes a previous that moved |
| `Navigation.DisabledIffNoMove` | reader.js:292-314 | the previous (next) button is disabled exactly when pressing it would change nothing |
| `Navigation.PageInfoInjective` | reader.js:299-301 | the "Chapter k of n" label determines both the position and the chapter count |
| `Navigation.PressNextReaches` | reader.js:310-314 | k presses of next from index c reach min(c+k, n-1), so every chapter can be reached |
| `Navigation.PressPrevReaches` | reader.js:304-308 | k presses of previous from index c reach max(c-k, 0) |
| `Package.ManifestMap` | reader.js:212-215 | the manifest map; characterised by `Package.ManifestMapKeys` and `Package.ManifestMapLastWins` |
| `Package.AttrKey` | reader.js:214-220 | the property key an attribute becomes: a missing attribute (`null`) is the key "null", for ids and idrefs alike; used by `Package.ManifestMapKeys` and `Package.HrefOfManifest` |
| `Package.Truthy` | reader.js:222-231 | JavaScript truthiness of an href or text: present and non-empty; used by `Package.HrefOfManifest` and `Package.TitleFor` |
| `Package.HrefOf` | reader.js:219-222 | the spine lookup with its truthiness test; characterised by `Package.HrefOfManifest` |
| `Package.TitleFor` | reader.js:229-232 | the title before trimming; characterised by `Package.DefaultTitleWhenUntitled` and `Package.SpineChaptersFollowSpine` |
| `Package.DefaultTitle` | reader.js:232 | "Chapter " followed by one more than the chapters already loaded |
| `Package.ChapterFor` | reader.js:218-241 | the chapter one spine entry adds; characterised by `Package.ChapterForIffYields` |
| `Package.SpineChapters` | reader.js:217-243 | the chapter list after the spine loop; characterised by `Package.SpineChaptersFollowSpine`, `Package.SpineChaptersBound` and `Package.YieldingIndicesExact` |
| `Package.BuildManifestMap` | reader.js:211-215 | the loop over the manifest items builds exactly the manifest map |
| `Package.ManifestMapKeys` | reader.js:212-215 | the map's keys are exactly the keys of the items' ids |
| `Package.ManifestMapLastWins` | reader.js:212-215 | the map holds the href of the last item with a given id |
| `Package.LastItemExists` | reader.js:212-215 | when some item carries an id, a last item with that id exists |
| `Package.HrefOfManifest` | reader.js:212-222 | an idref that no item carries finds nothing; otherwise the lookup finds the href of the last item with that id, and only when that href is present and non-empty |
| `Package.ChapterForIffYields` | reader.js:218-241 | a spine entry produces a chapter exactly when its href is truthy and the resolved file loads |
| `Package.ChapterForLoaded` | reader.js:222-238 | an entry with a truthy href whose resolved file loads adds that file, at its resolved path, under the trimmed title with `count` chapters before it |
| `Package.ChapterForSkipped` | reader.js:222-241 | an entry whose href is missing or empty, or whose resolved file does not load, adds nothing |
| `Package.SpineChaptersExtend` | reader.js:217-243 | each pass of the spine loop appends the chapter its entry adds, if any, to the list built so far |
| `Package.SpineChaptersBound` | reader.js:217-243 | there are never more chapters than spine entries |
| `Package.YieldingIndicesExact` | reader.js:217-243 | the producing spine positions are in range, strictly increasing, and include every entry that produces a chapter |
| `Package.SpineChaptersFollowSpine` | reader.js:217-243 | the k-th chapter comes from the k-th producing spine entry; its path is that href resolved against the package document, its content is the file there, and its title is the trimmed title with k chapters before it |
| `Package.UnresolvedEntryContributesNothing` | reader.js:219-222 | an idref missing from the manifest, or mapped to a missing or empty href, produces no chapter |
| `Package.DefaultTitleWhenUntitled` | reader.js:228-238 | a loaded chapter with neither title nor heading is pushed, after trimming, as "Chapter " followed by one more than the chapters already loaded |
| `Package.DefaultTitleIsClean` | reader.js:232-235 | the default title begins with a letter and ends with a digit, so `trim` leaves it unchanged |
| `Reader.EpubReader.constructor` | reader.js:2-12 | starts with no chapters at index 0; the missing-JSZip message is shown exactly when the library is absent; saved settings replace the defaults and, with a font drop-down, the class set becomes `FontClasses` of the page's classes and the saved family |
| `Reader.EpubReader.ShowError` | reader.js:22-31 | appends the message to those shown |
| `Reader.EpubReader.ChangeFontFamily` | reader.js:121-146 | the family is recorded in the settings and the font size is kept; the class set becomes `FontClasses` of the old one, so only the removal happens when the family holds whitespace; the call completes exactly when the family holds no ASCII whitespace |
| `Reader.EpubReader.ApplySettings` | reader.js:98-106 | re-applies the stored family when the drop-down exists, otherwise changes nothing |
| `Reader.EpubReader.UpdateNavigation` | reader.js:292-302 | previous is disabled iff the index is 0; next iff it is the last; the label is "Chapter index+1 of count" |
| `Reader.EpubReader.GoToChapter` | reader.js:270-290 | an in-range index becomes current and the navigation is updated for it; any other index changes nothing |
| `Reader.EpubReader.PreviousChapter` | reader.js:304-308 | the index moves as `Navigation.Prev`; the invariant is kept and the navigation shows the new index |
| `Reader.EpubReader.NextChapter` | reader.js:310-314 | the index moves as `Navigation.Next`; the invariant is kept and the navigation shows the new index |
| `Reader.EpubReader.RenderChapterList` | reader.js:253-268 | with chapters, the first one is opened; with none, index and navigation are untouched |
| `Reader.EpubReader.LoadSpineEntry` | reader.js:218-242 | one pass of the spine loop pushes exactly the chapter `ChapterFor` gives for the entry with the chapters already loaded, or nothing |
| `Reader.EpubReader.Opening` | reader.js:164-168 | without JSZip every accepted file opens as `Unreadable`, because `new JSZip()` throws inside the `try`; used by `Reader.EpubReader.HandleFileUpload`'s ensures |
| `Reader.EpubReader.ParseEPUB` | reader.js:189-246 | the list is rebuilt from empty as exactly the spine join, whatever it held before; a non-empty list is opened at chapter 0 |
| `Reader.EpubReader.HandleFileUpload` | reader.js:148-180 | a rejected file only adds its message; an accepted one that does not open, or any accepted one when JSZip is absent, adds the load error, and empties the list when the ZIP opened but holds no package; an opened package replaces the list with the spine join, shows the reader and re-applies the font |

## Left out

- Rendering: the chapter-list elements, the chapter's body HTML, the "active" highlighting, the loading indicator, the section display styles, and the drop-down's displayed value. These are page effects. Only the state the reader itself reads back is modelled.
- JSZip and DOMParser: `Package.Archive`, `Package.OpfPackage.files` and `Package.Markup` stand for them.
- `title.trim()` is modelled by `Text.Trim`. Its space separators are those of Unicode's Zs category as it stands since Unicode 6.3.
- The `console.error` logging at reader.js:173 and reader.js:240. It writes to the console only and changes no state.
- `Reader.EpubReader.ChangeFontFamily`: the rejected promise left by a family with whitespace is not modelled beyond `completed`. Nothing in the reader awaits or catches it.
- `toLowerCase` is modelled on ASCII letters only.
- Settings persistence: `saveSettings` is not modelled, because it only writes to host storage. `loadSettings`' result is the constructor's `saved` parameter. The asynchronous `browser.storage` path is treated as if it completed during construction. The JSON round trip is left out.
- `waitForFontLoad`, the capitalised font name passed to it, and the opacity changes: these are asynchronous font APIs and styling.
- The `async`/`await` structure: every operation is modelled as one sequential step.
- Manifest ids or spine idrefs that name `Object.prototype` members (`__proto__`, `toString`, …). For these, the plain object's inherited properties would change what the lookup finds.
- `this.epub`: the archive handle is not kept.
- Exceptions thrown because a page element (`pageContent`, `chapterList`, the buttons) is missing.
- `Text.NatToString`: JavaScript switches to exponent notation from 10^21 on. Chapter counts never reach that, so the model always renders plain decimal.
- `Fonts.FontClasses`: `classList` is an ordered set, and the model does not keep the order of the classes.
