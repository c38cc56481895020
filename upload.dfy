/** The checks `handleFileUpload` makes before reading a file
    (reader.js:148-162): a file must have been chosen, its name must end in
    `.epub` ignoring case, and it may be at most 50 MiB. */
module Upload {
  import opened Wrappers
  import opened Text

  /** What the reader looks at in a browser `File`: its name and size in bytes. */
  datatype FileInfo = FileInfo(name: string, size: nat)

  datatype UploadCheck = NoFile | NotEpub | TooLarge | Accepted

  const MaxUploadBytes: nat := 50 * 1024 * 1024
  const EpubExtension: string := ".epub"

  const NotEpubMessage: string := "Please select a valid EPUB file."
  const TooLargeMessage: string := "File too large. Please select a file smaller than 50MB."

  /** The file name, compared character by character and ignoring ASCII case,
      ends in ".epub". */
  predicate HasEpubExtension(name: string) {
    |name| >= 5 && forall k :: 0 <= k < 5 ==> LowerChar(name[|name| - 5 + k]) == EpubExtension[k]
  }

  /** `name.toLowerCase().endsWith(".epub")` is the case-insensitive comparison
      of the last five characters. */
  lemma LowerEndsWithEpub(name: string)
    ensures EndsWith(AsciiLower(name), EpubExtension) <==> HasEpubExtension(name)
  {
    var low := AsciiLower(name);
    if HasEpubExtension(name) {
      assert low[|low| - 5..] == EpubExtension by {
        forall k | 0 <= k < 5 ensures low[|low| - 5..][k] == EpubExtension[k] {
          assert low[|low| - 5 + k] == LowerChar(name[|name| - 5 + k]);
        }
      }
    }
    if EndsWith(low, EpubExtension) {
      forall k | 0 <= k < 5 ensures LowerChar(name[|name| - 5 + k]) == EpubExtension[k] {
        assert low[|low| - 5..][k] == low[|low| - 5 + k];
      }
    }
  }

  /** The verdict of reader.js:149-162, the name tested before the size. */
  function CheckUpload(file: Option<FileInfo>): (v: UploadCheck)
    ensures v == NoFile <==> file.None?
    ensures v == NotEpub <==> file.Some? && !HasEpubExtension(file.value.name)
    ensures v == TooLarge <==>
      file.Some? && HasEpubExtension(file.value.name) && file.value.size > MaxUploadBytes
    ensures v == Accepted <==>
      file.Some? && HasEpubExtension(file.value.name) && file.value.size <= MaxUploadBytes
  {
    match file
    case None => NoFile
    case Some(f) =>
      LowerEndsWithEpub(f.name);
      if !EndsWith(AsciiLower(f.name), EpubExtension) then NotEpub
      else if f.size > MaxUploadBytes then TooLarge
      else Accepted
  }

  /** The message `showError` displays for a rejected file, none otherwise. */
  function RejectionMessage(v: UploadCheck): (m: Option<string>)
    ensures m.Some? <==> v == NotEpub || v == TooLarge
  {
    match v
    case NotEpub => Some(NotEpubMessage)
    case TooLarge => Some(TooLargeMessage)
    case _ => None
  }

  /** Only the lower-cased name matters: renaming "Book.EPUB" to "book.epub"
      never changes the verdict. */
  lemma {:induction false} CheckUploadIgnoresCase(name: string, size: nat)
    ensures CheckUpload(Some(FileInfo(AsciiLower(name), size))) == CheckUpload(Some(FileInfo(name, size)))
  {
    LowerEndsWithEpub(name);
    LowerEndsWithEpub(AsciiLower(name));
    AsciiLowerIdempotent(name);
  }

  /** The limit is inclusive: exactly 52428800 bytes passes, one byte more fails. */
  lemma SizeLimitIsInclusive(name: string)
    requires HasEpubExtension(name)
    ensures CheckUpload(Some(FileInfo(name, 52428800))) == Accepted
    ensures CheckUpload(Some(FileInfo(name, 52428801))) == TooLarge
  {
  }
}
