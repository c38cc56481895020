/** The `EPUBReader` controller (reader.js:1-323) with the page reduced to the
    state the reader writes: the class list of the page content, the
    navigation buttons and label, the error messages shown, and whether the
    reader section is visible. */
module Reader {
  import opened Wrappers
  import opened Text
  import opened Upload
  import opened Fonts
  import opened Navigation
  import opened Package
  import opened Paths

  const JSZipMissingMessage: string := "JSZip library is not loaded. Please contact support."
  const LoadErrorMessage: string := "Error loading EPUB file. Please ensure it's a valid EPUB format."

  class EpubReader {
    var chapters: seq<Chapter>
    var currentChapter: nat
    var settings: Settings
    /** The `classList` of the page content element. */
    var classes: set<string>
    /** What `updateNavigation` last wrote. */
    var nav: NavView
    /** The messages `showError` has appended to the page, oldest first. */
    var errors: seq<string>
    var readerShown: bool
    /** Whether the page has the font drop-down that `applySettings` looks for. */
    const hasFontDropdown: bool
    /** Whether the JSZip library was present when the page loaded. */
    const jszipLoaded: bool

    /** Once chapters are loaded, the index is in range and the navigation shows
        it. With no chapters the index may be stale: loading a book without
        chapters does not reset it. */
    predicate Valid()
      reads this
    {
      |chapters| > 0 ==> currentChapter < |chapters| && nav == NavFor(currentChapter, |chapters|)
    }

    /** The constructor, `init` and `loadSettings` (reader.js:2-12, 33-54,
        81-96): the saved settings, if any, replace the defaults and are applied. */
    constructor (jszipLoaded: bool, hasFontDropdown: bool, pageClasses: set<string>,
                 pageNav: NavView, saved: Option<Settings>)
      ensures Valid()
      ensures chapters == [] && currentChapter == 0 && !readerShown
      ensures errors == if jszipLoaded then [] else [JSZipMissingMessage]
      ensures settings == if saved.Some? then saved.value else DefaultSettings
      ensures classes == if saved.Some? && hasFontDropdown
                         then FontClasses(pageClasses, saved.value.fontFamily) else pageClasses
      ensures nav == pageNav
      ensures this.hasFontDropdown == hasFontDropdown && this.jszipLoaded == jszipLoaded
    {
      chapters := [];
      currentChapter := 0;
      errors := if jszipLoaded then [] else [JSZipMissingMessage];
      settings := DefaultSettings;
      classes := pageClasses;
      nav := pageNav;
      readerShown := false;
      this.hasFontDropdown := hasFontDropdown;
      this.jszipLoaded := jszipLoaded;
      new;
      if saved.Some? {
        settings := saved.value;
        ApplySettings();
      }
    }

    method ShowError(message: string)
      modifies this`errors
      ensures errors == old(errors) + [message]
    {
      errors := errors + [message];
    }

    /** The second `changeFontFamily` (reader.js:121-146). The family is
        recorded and the managed classes removed before `classList.add`, which
        throws for a class holding ASCII whitespace; `completed` says whether
        the call ran to its end rather than rejecting. */
    method ChangeFontFamily(family: string) returns (completed: bool)
      modifies this`settings, this`classes
      ensures settings == old(settings).(fontFamily := family)
      ensures classes == FontClasses(old(classes), family)
      ensures completed <==> !HasAsciiWhitespace(family)
    {
      FontClassAcceptedIff(family);
      settings := settings.(fontFamily := family);
      classes := classes - ManagedFontClasses;
      if family != "default" {
        var token := "font-" + family;
        if HasAsciiWhitespace(token) {
          return false;
        }
        classes := classes + {token};
      } else {
        classes := classes + {"font-default"};
      }
      completed := true;
    }

    /** `applySettings` (reader.js:98-106). */
    method ApplySettings()
      modifies this`settings, this`classes
      ensures settings == old(settings)
      ensures classes == if hasFontDropdown then FontClasses(old(classes), settings.fontFamily) else old(classes)
    {
      if hasFontDropdown {
        var _ := ChangeFontFamily(settings.fontFamily);
      }
    }

    /** `updateNavigation` (reader.js:292-302). */
    method UpdateNavigation()
      modifies this`nav
      ensures nav == NavFor(currentChapter, |chapters|)
    {
      nav := NavView(currentChapter == 0, currentChapter == |chapters| - 1, PageInfo(currentChapter, |chapters|));
    }

    /** `goToChapter` (reader.js:270-290) without the rendering of the content. */
    method GoToChapter(index: int)
      modifies this`currentChapter, this`nav
      ensures currentChapter == GoTo(old(currentChapter), |chapters|, index)
      ensures nav == if 0 <= index < |chapters| then NavFor(index, |chapters|) else old(nav)
      ensures 0 <= index < |chapters| ==> Valid()
    {
      if index < 0 || index >= |chapters| {
        return;
      }
      currentChapter := index;
      UpdateNavigation();
    }

    /** `previousChapter` (reader.js:304-308). */
    method PreviousChapter()
      requires Valid()
      modifies this`currentChapter, this`nav
      ensures Valid()
      ensures currentChapter == Prev(old(currentChapter), |chapters|)
      ensures nav == if |chapters| > 0 then NavFor(currentChapter, |chapters|) else old(nav)
    {
      if currentChapter > 0 {
        GoToChapter(currentChapter - 1);
      }
    }

    /** `nextChapter` (reader.js:310-314). */
    method NextChapter()
      requires Valid()
      modifies this`currentChapter, this`nav
      ensures Valid()
      ensures currentChapter == Next(old(currentChapter), |chapters|)
      ensures nav == if |chapters| > 0 then NavFor(currentChapter, |chapters|) else old(nav)
    {
      if currentChapter < |chapters| - 1 {
        GoToChapter(currentChapter + 1);
      }
    }

    /** What is left of `renderChapterList` (reader.js:253-268) without the DOM:
        open the first chapter when there is one. */
    method RenderChapterList()
      modifies this`currentChapter, this`nav
      ensures Valid()
      ensures chapters != [] ==> currentChapter == 0 && nav == NavFor(0, |chapters|)
      ensures chapters == [] ==> currentChapter == old(currentChapter) && nav == old(nav)
    {
      if |chapters| > 0 {
        GoToChapter(0);
      }
    }

    /** One pass of the spine loop (reader.js:218-242): look the idref up in
        the manifest map and, when the href is truthy and the resolved file
        loads, push the chapter under its trimmed title. */
    method LoadSpineEntry(pkg: OpfPackage, manifestMap: map<string, Option<string>>,
                          markup: Markup, idref: Option<string>)
      modifies this`chapters
      ensures var entry := ChapterFor(pkg, manifestMap, markup, idref, |old(chapters)|);
        chapters == old(chapters) + (if entry.Some? then [entry.value] else [])
    {
      var key := AttrKey(idref);
      if key in manifestMap && Truthy(manifestMap[key]) {
        var href := manifestMap[key].value;
        var fullPath := ResolvePath(pkg.opfPath, href);
        var content := pkg.files(fullPath);
        if content.Some? {
          var title := TitleFor(markup, content.value, |chapters|);
          ChapterForLoaded(pkg, manifestMap, markup, idref, |chapters|);
          chapters := chapters + [Chapter(Trim(title), content.value, fullPath)];
        } else {
          ChapterForSkipped(pkg, manifestMap, markup, idref, |chapters|);
        }
      } else {
        ChapterForSkipped(pkg, manifestMap, markup, idref, |chapters|);
      }
    }

    /** `parseEPUB` (reader.js:189-246) from the point where the package
        document has been read: empty the list, build the manifest map, then
        walk the spine and push every chapter that resolves and loads. */
    method ParseEPUB(pkg: OpfPackage, markup: Markup)
      modifies this`chapters, this`currentChapter, this`nav
      ensures Valid()
      ensures chapters == SpineChapters(pkg, ManifestMap(pkg.manifest), markup, pkg.spine)
      ensures chapters != [] ==> currentChapter == 0 && nav == NavFor(0, |chapters|)
      ensures chapters == [] ==> currentChapter == old(currentChapter) && nav == old(nav)
    {
      chapters := [];
      var manifestMap := BuildManifestMap(pkg.manifest);
      var i := 0;
      while i < |pkg.spine|
        invariant 0 <= i <= |pkg.spine|
        invariant chapters == SpineChapters(pkg, manifestMap, markup, pkg.spine[..i])
        invariant currentChapter == old(currentChapter) && nav == old(nav)
      {
        SpineChaptersExtend(pkg, manifestMap, markup, pkg.spine, i);
        LoadSpineEntry(pkg, manifestMap, markup, pkg.spine[i]);
        i := i + 1;
      }
      assert pkg.spine[..|pkg.spine|] == pkg.spine;
      RenderChapterList();
    }

    /** What opening an accepted upload yields: without JSZip, `new JSZip()`
        throws inside the `try`, so the file is as unreadable as a broken one. */
    function Opening(archive: Archive): Archive {
      if jszipLoaded then archive else Unreadable
    }

    /** `handleFileUpload` (reader.js:148-180): reject a missing, misnamed or
        oversized file; otherwise open it, parse it and show the reader, or
        show the load error. */
    method HandleFileUpload(file: Option<FileInfo>, archive: Archive, markup: Markup)
      requires Valid()
      modifies this`chapters, this`currentChapter, this`nav, this`errors, this`readerShown,
               this`settings, this`classes
      ensures Valid()
      ensures settings == old(settings)
      ensures CheckUpload(file) != Accepted ==>
        && chapters == old(chapters) && currentChapter == old(currentChapter) && nav == old(nav)
        && classes == old(classes) && readerShown == old(readerShown)
        && errors == old(errors) + (if file.None? then [] else [RejectionMessage(CheckUpload(file)).value])
      ensures CheckUpload(file) == Accepted && !Opening(archive).Opened? ==>
        && chapters == (if Opening(archive).NoPackage? then [] else old(chapters))
        && currentChapter == old(currentChapter) && nav == old(nav)
        && classes == old(classes) && readerShown == old(readerShown)
        && errors == old(errors) + [LoadErrorMessage]
      ensures CheckUpload(file) == Accepted && Opening(archive).Opened? ==>
        && chapters == SpineChapters(Opening(archive).pkg, ManifestMap(Opening(archive).pkg.manifest), markup, Opening(archive).pkg.spine)
        && (chapters != [] ==> currentChapter == 0 && nav == NavFor(0, |chapters|))
        && (chapters == [] ==> currentChapter == old(currentChapter) && nav == old(nav))
        && readerShown && errors == old(errors)
        && classes == if hasFontDropdown then FontClasses(old(classes), settings.fontFamily) else old(classes)
    {
      var verdict := CheckUpload(file);
      if verdict == NoFile {
        return;
      }
      if verdict != Accepted {
        ShowError(RejectionMessage(verdict).value);
        return;
      }
      match Opening(archive)
      case Unreadable =>
        ShowError(LoadErrorMessage);
      case NoPackage =>
        chapters := [];
        ShowError(LoadErrorMessage);
      case Opened(pkg) =>
        ParseEPUB(pkg, markup);
        readerShown := true;
        ApplySettings();
    }
  }
}
