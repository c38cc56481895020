/** The manifest/spine join of `parseEPUB` (reader.js:207-243), stated over
    the package document's contents once they have been read: the path of the
    package document, its manifest items and its spine itemrefs, with the
    archive and the markup parser as oracles. */
module Package {
  import opened Wrappers
  import opened Text
  import opened Paths

  /** A manifest `<item>`: `getAttribute` yields None where the attribute is absent. */
  datatype ManifestItem = ManifestItem(id: Option<string>, href: Option<string>)

  /** An opened EPUB: the `full-path` of the rootfile, the manifest items and
      the spine `idref`s in document order, and the archive's text files
      (None where `epub.file(path)` has no entry or cannot be read). */
  datatype OpfPackage = OpfPackage(
    opfPath: string,
    manifest: seq<ManifestItem>,
    spine: seq<Option<string>>,
    files: string -> Option<string>)

  /** The outcome of opening an uploaded file: `file.arrayBuffer()`,
      `new JSZip()` (when the library is absent) or `JSZip.loadAsync` failed;
      the archive opened but `container.xml`, its
      `rootfile` or the package document is missing; or the package was read. */
  datatype Archive = Unreadable | NoPackage | Opened(pkg: OpfPackage)

  /** What the host's HTML parser yields for a chapter's markup: the text of
      the `<title>` element and of the first `h1, h2, h3` element (None where
      there is none). */
  datatype Markup = Markup(
    titleText: string -> Option<string>,
    headingText: string -> Option<string>)

  datatype Chapter = Chapter(title: string, content: string, path: string)

  /** The property key an attribute value becomes: a missing attribute (`null`)
      is the key "null". */
  function AttrKey(a: Option<string>): string {
    if a.Some? then a.value else "null"
  }

  /** JavaScript truthiness of an attribute value or text: present and non-empty. */
  predicate Truthy(a: Option<string>) {
    a.Some? && a.value != ""
  }

  /** The `manifestMap` object after the `forEach` over the items: each item
      assigns its href to its id's key in turn. */
  function ManifestMap(items: seq<ManifestItem>): map<string, Option<string>>
    decreases |items|
  {
    if items == [] then map[]
    else
      var last := items[|items| - 1];
      ManifestMap(items[..|items| - 1])[AttrKey(last.id) := last.href]
  }

  /** The href the spine lookup finds for an idref, when it is truthy. */
  function HrefOf(m: map<string, Option<string>>, idref: Option<string>): Option<string> {
    var key := AttrKey(idref);
    if key in m && Truthy(m[key]) then m[key] else None
  }

  /** The title given to the chapter pushed when `count` chapters are already loaded. */
  function DefaultTitle(count: nat): string {
    "Chapter " + NatToString(count + 1)
  }

  /** The title before trimming: the `<title>` text, else the first heading's
      text, else the default title. */
  function TitleFor(markup: Markup, content: string, count: nat): string {
    if Truthy(markup.titleText(content)) then markup.titleText(content).value
    else if Truthy(markup.headingText(content)) then markup.headingText(content).value
    else DefaultTitle(count)
  }

  /** The chapter one spine entry contributes when `count` chapters precede it. */
  function ChapterFor(pkg: OpfPackage, m: map<string, Option<string>>, markup: Markup,
                      idref: Option<string>, count: nat): Option<Chapter>
  {
    match HrefOf(m, idref)
    case None => None
    case Some(href) =>
      var path := ResolvePath(pkg.opfPath, href);
      match pkg.files(path)
      case None => None
      case Some(content) => Some(Chapter(Trim(TitleFor(markup, content, count)), content, path))
  }

  /** The chapter list after processing the given spine entries in order,
      starting from the emptied list. */
  function SpineChapters(pkg: OpfPackage, m: map<string, Option<string>>, markup: Markup,
                         spine: seq<Option<string>>): seq<Chapter>
    decreases |spine|
  {
    if spine == [] then []
    else
      var before := SpineChapters(pkg, m, markup, spine[..|spine| - 1]);
      match ChapterFor(pkg, m, markup, spine[|spine| - 1], |before|)
      case None => before
      case Some(c) => before + [c]
  }

  /** A spine entry produces a chapter: its idref maps to a truthy href and the
      resolved file can be read. */
  predicate Yields(pkg: OpfPackage, m: map<string, Option<string>>, idref: Option<string>) {
    HrefOf(m, idref).Some? && pkg.files(ResolvePath(pkg.opfPath, HrefOf(m, idref).value)).Some?
  }

  /** The positions in the spine of the entries that produce a chapter, in order. */
  function YieldingIndices(pkg: OpfPackage, m: map<string, Option<string>>,
                           spine: seq<Option<string>>): seq<nat>
    decreases |spine|
  {
    if spine == [] then []
    else
      YieldingIndices(pkg, m, spine[..|spine| - 1])
      + (if Yields(pkg, m, spine[|spine| - 1]) then [|spine| - 1] else [])
  }

  /** The method that fills `manifestMap` (reader.js:212-215). */
  method BuildManifestMap(items: seq<ManifestItem>) returns (m: map<string, Option<string>>)
    ensures m == ManifestMap(items)
  {
    m := map[];
    for i := 0 to |items|
      invariant m == ManifestMap(items[..i])
    {
      assert items[..i + 1][..i] == items[..i];
      m := m[AttrKey(items[i].id) := items[i].href];
    }
    assert items[..|items|] == items;
  }

  /** The manifest map's keys are exactly the ids of the items. */
  lemma {:induction false} ManifestMapKeys(items: seq<ManifestItem>, key: string)
    ensures key in ManifestMap(items) <==> exists j :: 0 <= j < |items| && AttrKey(items[j].id) == key
    decreases |items|
  {
    if items != [] {
      var prefix := items[..|items| - 1];
      ManifestMapKeys(prefix, key);
      if exists j :: 0 <= j < |prefix| && AttrKey(prefix[j].id) == key {
        var j :| 0 <= j < |prefix| && AttrKey(prefix[j].id) == key;
        assert items[j] == prefix[j];
      }
      if exists j :: 0 <= j < |items| && AttrKey(items[j].id) == key {
        var j :| 0 <= j < |items| && AttrKey(items[j].id) == key;
        if j < |prefix| {
          assert prefix[j] == items[j];
        }
      }
    }
  }

  /** A later item with the same id overwrites an earlier one: the map holds the
      href of the last item carrying the key. */
  lemma {:induction false} ManifestMapLastWins(items: seq<ManifestItem>, j: nat)
    requires j < |items|
    requires forall l :: j < l < |items| ==> AttrKey(items[l].id) != AttrKey(items[j].id)
    ensures AttrKey(items[j].id) in ManifestMap(items)
    ensures ManifestMap(items)[AttrKey(items[j].id)] == items[j].href
    decreases |items|
  {
    if j < |items| - 1 {
      var prefix := items[..|items| - 1];
      assert prefix[j] == items[j];
      forall l | j < l < |prefix| ensures AttrKey(prefix[l].id) != AttrKey(prefix[j].id) {
        assert prefix[l] == items[l];
      }
      ManifestMapLastWins(prefix, j);
    }
  }

  /** The item `j` is the last one whose id has the given key. */
  predicate LastItemWithKey(items: seq<ManifestItem>, j: int, key: string) {
    && 0 <= j < |items| && AttrKey(items[j].id) == key
    && forall l :: j < l < |items| ==> AttrKey(items[l].id) != key
  }

  /** Whenever some item carries a key, a last one does. */
  lemma {:induction false} LastItemExists(items: seq<ManifestItem>, key: string, j: int)
    requires 0 <= j < |items| && AttrKey(items[j].id) == key
    ensures exists l :: LastItemWithKey(items, l, key)
    decreases |items|
  {
    if AttrKey(items[|items| - 1].id) == key {
      assert LastItemWithKey(items, |items| - 1, key);
    } else {
      var prefix := items[..|items| - 1];
      assert prefix[j] == items[j];
      LastItemExists(prefix, key, j);
      var l :| LastItemWithKey(prefix, l, key);
      forall l' | l < l' < |items| ensures AttrKey(items[l'].id) != key {
        if l' < |prefix| {
          assert items[l'] == prefix[l'];
        }
      }
      assert LastItemWithKey(items, l, key);
    }
  }

  /** The spine lookup against the manifest items themselves: an idref no item
      carries finds nothing; otherwise it finds the href of the last item with
      that id, and only when that href is present and non-empty. */
  lemma HrefOfManifest(items: seq<ManifestItem>, idref: Option<string>)
    ensures (forall j :: 0 <= j < |items| ==> AttrKey(items[j].id) != AttrKey(idref)) ==>
              HrefOf(ManifestMap(items), idref) == None
    ensures forall j :: LastItemWithKey(items, j, AttrKey(idref)) ==>
              HrefOf(ManifestMap(items), idref) == if Truthy(items[j].href) then items[j].href else None
  {
    var key := AttrKey(idref);
    ManifestMapKeys(items, key);
    forall j | LastItemWithKey(items, j, key)
      ensures HrefOf(ManifestMap(items), idref) == if Truthy(items[j].href) then items[j].href else None
    {
      ManifestMapLastWins(items, j);
    }
  }

  lemma ChapterForIffYields(pkg: OpfPackage, m: map<string, Option<string>>, markup: Markup,
                            idref: Option<string>, count: nat)
    ensures ChapterFor(pkg, m, markup, idref, count).Some? <==> Yields(pkg, m, idref)
  {
  }

  /** Processing one more spine entry appends the chapter it contributes, if any. */
  lemma SpineChaptersExtend(pkg: OpfPackage, m: map<string, Option<string>>, markup: Markup,
                            spine: seq<Option<string>>, i: nat)
    requires i < |spine|
    ensures var before := SpineChapters(pkg, m, markup, spine[..i]);
      var entry := ChapterFor(pkg, m, markup, spine[i], |before|);
      SpineChapters(pkg, m, markup, spine[..i + 1])
        == before + (if entry.Some? then [entry.value] else [])
  {
    assert spine[..i + 1][..i] == spine[..i];
  }

  /** An entry whose href is truthy and whose resolved file loads contributes
      that file, under its trimmed title. */
  lemma ChapterForLoaded(pkg: OpfPackage, m: map<string, Option<string>>, markup: Markup,
                         idref: Option<string>, count: nat)
    requires Yields(pkg, m, idref)
    ensures var path := ResolvePath(pkg.opfPath, HrefOf(m, idref).value);
      var content := pkg.files(path).value;
      ChapterFor(pkg, m, markup, idref, count)
        == Some(Chapter(Trim(TitleFor(markup, content, count)), content, path))
  {
    var href := m[AttrKey(idref)].value;
    assert HrefOf(m, idref) == Some(href);
  }

  /** An entry without a truthy href, or whose resolved file does not load,
      contributes nothing. */
  lemma ChapterForSkipped(pkg: OpfPackage, m: map<string, Option<string>>, markup: Markup,
                          idref: Option<string>, count: nat)
    requires !(AttrKey(idref) in m && Truthy(m[AttrKey(idref)]))
             || pkg.files(ResolvePath(pkg.opfPath, m[AttrKey(idref)].value)).None?
    ensures ChapterFor(pkg, m, markup, idref, count).None?
  {
  }

  /** At most one chapter per spine entry. */
  lemma {:induction false} SpineChaptersBound(pkg: OpfPackage, m: map<string, Option<string>>,
                                              markup: Markup, spine: seq<Option<string>>)
    ensures |SpineChapters(pkg, m, markup, spine)| <= |spine|
    decreases |spine|
  {
    if spine != [] {
      SpineChaptersBound(pkg, m, markup, spine[..|spine| - 1]);
    }
  }

  /** The yielding positions are in range, strictly increasing, and are exactly
      the spine entries that produce a chapter. */
  lemma {:induction false} YieldingIndicesExact(pkg: OpfPackage, m: map<string, Option<string>>,
                                                spine: seq<Option<string>>)
    ensures forall k :: 0 <= k < |YieldingIndices(pkg, m, spine)| ==>
      YieldingIndices(pkg, m, spine)[k] < |spine| && Yields(pkg, m, spine[YieldingIndices(pkg, m, spine)[k]])
    ensures forall k, l :: 0 <= k < l < |YieldingIndices(pkg, m, spine)| ==>
      YieldingIndices(pkg, m, spine)[k] < YieldingIndices(pkg, m, spine)[l]
    ensures forall i :: 0 <= i < |spine| && Yields(pkg, m, spine[i]) ==> i in YieldingIndices(pkg, m, spine)
    decreases |spine|
  {
    if spine != [] {
      var prefix := spine[..|spine| - 1];
      var last := spine[|spine| - 1];
      YieldingIndicesExact(pkg, m, prefix);
      var ixp := YieldingIndices(pkg, m, prefix);
      var ix := YieldingIndices(pkg, m, spine);
      assert ix == ixp + (if Yields(pkg, m, last) then [|spine| - 1] else []);
      forall k | 0 <= k < |ix| ensures ix[k] < |spine| && Yields(pkg, m, spine[ix[k]]) {
        if k < |ixp| {
          assert ix[k] == ixp[k];
          assert spine[ix[k]] == prefix[ixp[k]];
        }
      }
      forall i | 0 <= i < |spine| && Yields(pkg, m, spine[i]) ensures i in ix {
        if i < |prefix| {
          assert prefix[i] == spine[i];
          assert i in ixp;
        }
      }
    }
  }

  /** The join's result, chapter by chapter: the k-th chapter comes from the
      k-th yielding spine entry, its path is that entry's href resolved against
      the package document, its content is the file there, and its title is the
      trimmed title with k chapters before it. */
  lemma {:induction false} SpineChaptersFollowSpine(pkg: OpfPackage, m: map<string, Option<string>>,
                                                    markup: Markup, spine: seq<Option<string>>)
    ensures var cs := SpineChapters(pkg, m, markup, spine);
      var ix := YieldingIndices(pkg, m, spine);
      && |cs| == |ix|
      && forall k :: 0 <= k < |cs| ==>
           && ix[k] < |spine|
           && HrefOf(m, spine[ix[k]]).Some?
           && cs[k].path == ResolvePath(pkg.opfPath, HrefOf(m, spine[ix[k]]).value)
           && pkg.files(cs[k].path) == Some(cs[k].content)
           && cs[k].title == Trim(TitleFor(markup, cs[k].content, k))
    decreases |spine|
  {
    if spine != [] {
      var prefix := spine[..|spine| - 1];
      var last := spine[|spine| - 1];
      SpineChaptersFollowSpine(pkg, m, markup, prefix);
      YieldingIndicesExact(pkg, m, prefix);
      var csp := SpineChapters(pkg, m, markup, prefix);
      var cs := SpineChapters(pkg, m, markup, spine);
      var ix := YieldingIndices(pkg, m, spine);
      var ixp := YieldingIndices(pkg, m, prefix);
      ChapterForIffYields(pkg, m, markup, last, |csp|);
      forall k | 0 <= k < |cs|
        ensures && ix[k] < |spine|
                && HrefOf(m, spine[ix[k]]).Some?
                && cs[k].path == ResolvePath(pkg.opfPath, HrefOf(m, spine[ix[k]]).value)
                && pkg.files(cs[k].path) == Some(cs[k].content)
                && cs[k].title == Trim(TitleFor(markup, cs[k].content, k))
      {
        if k < |csp| {
          assert cs[k] == csp[k] && ix[k] == ixp[k];
          assert spine[ix[k]] == prefix[ixp[k]];
        }
      }
    }
  }

  /** A spine entry whose idref has no manifest item, or only a missing or empty
      href, contributes no chapter wherever it stands. */
  lemma UnresolvedEntryContributesNothing(pkg: OpfPackage, m: map<string, Option<string>>,
                                          markup: Markup, spine: seq<Option<string>>, i: nat)
    requires i < |spine|
    requires AttrKey(spine[i]) !in m || !Truthy(m[AttrKey(spine[i])])
    ensures i !in YieldingIndices(pkg, m, spine)
  {
    YieldingIndicesExact(pkg, m, spine);
  }

  /** A loaded chapter with neither a title nor a heading is pushed under the
      name "Chapter k+1", k being the number of chapters loaded before it:
      trimming leaves that default title as it is. */
  lemma DefaultTitleWhenUntitled(pkg: OpfPackage, m: map<string, Option<string>>, markup: Markup,
                                 idref: Option<string>, count: nat)
    requires Yields(pkg, m, idref)
    requires var content := pkg.files(ResolvePath(pkg.opfPath, HrefOf(m, idref).value)).value;
      !Truthy(markup.titleText(content)) && !Truthy(markup.headingText(content))
    ensures ChapterFor(pkg, m, markup, idref, count).Some?
    ensures ChapterFor(pkg, m, markup, idref, count).value.title == "Chapter " + NatToString(count + 1)
  {
    var href := HrefOf(m, idref).value;
    var path := ResolvePath(pkg.opfPath, href);
    var content := pkg.files(path).value;
    ChapterForIffYields(pkg, m, markup, idref, count);
    var c := ChapterFor(pkg, m, markup, idref, count).value;
    assert c.title == Trim(TitleFor(markup, content, count));
    assert TitleFor(markup, content, count) == DefaultTitle(count);
    DefaultTitleIsClean(count);
  }

  /** The default title starts with a letter and ends with a digit, so trimming
      leaves it as it is. */
  lemma DefaultTitleIsClean(count: nat)
    ensures Trim(DefaultTitle(count)) == DefaultTitle(count)
  {
    var t := DefaultTitle(count);
    var digits := NatToString(count + 1);
    assert t[0] == 'C';
    assert t[|t| - 1] == digits[|digits| - 1];
    TrimKeepsClean(t);
  }
}
