/** The settings record and the class-list arithmetic of the second
    `changeFontFamily` (reader.js:121-146), the one that takes effect: in a
    JavaScript class body the later method of the same name replaces the
    earlier one (reader.js:56-71). */
module Fonts {
  import opened Text

  datatype Settings = Settings(fontFamily: string, fontSize: int)

  /** The settings the constructor installs (reader.js:7-10). */
  const DefaultSettings: Settings := Settings("default", 16)

  /** The classes `changeFontFamily` removes before adding its own. */
  const ManagedFontClasses: set<string> := {"font-inter", "font-poppins", "font-default"}

  /** The families whose class is one of the managed ones. */
  const KnownFamilies: set<string> := {"default", "inter", "poppins"}

  /** The class added for a family. */
  function FontClassFor(family: string): string {
    if family != "default" then "font-" + family else "font-default"
  }

  /** `classList.add` accepts the family's class: a token that holds ASCII
      whitespace makes it throw, and then nothing is added. */
  predicate FontClassAccepted(family: string) {
    !HasAsciiWhitespace(FontClassFor(family))
  }

  /** The class is refused exactly when the family itself holds ASCII whitespace. */
  lemma FontClassAcceptedIff(family: string)
    ensures FontClassAccepted(family) <==> !HasAsciiWhitespace(family)
  {
    var c := FontClassFor(family);
    if family != "default" {
      assert c == "font-" + family;
      if HasAsciiWhitespace(family) {
        var i :| 0 <= i < |family| && IsAsciiWhitespace(family[i]);
        assert c[5 + i] == family[i];
      }
      if HasAsciiWhitespace(c) {
        var i :| 0 <= i < |c| && IsAsciiWhitespace(c[i]);
        assert i >= 5 && family[i - 5] == c[i];
      }
    }
  }

  /** A family's class is one of the managed ones exactly for the known families. */
  lemma FontClassManagedIff(family: string)
    ensures family in KnownFamilies <==> FontClassFor(family) in ManagedFontClasses
  {
    var c := FontClassFor(family);
    if family != "default" {
      assert family == c[5..];
      if c == "font-inter" {
        assert c[5..] == "inter";
      } else if c == "font-poppins" {
        assert c[5..] == "poppins";
      }
      assert family == "inter" ==> c == "font-inter";
      assert family == "poppins" ==> c == "font-poppins";
    }
  }

  /** The page's class set after `changeFontFamily(family)`. The other managed
      classes are gone and every class outside the managed ones is present
      exactly when it was before. The family's class is present when
      `classList.add` accepts it; when it throws, the managed classes have
      already been removed and nothing is added. */
  function FontClasses(classes: set<string>, family: string): (r: set<string>)
    ensures FontClassAccepted(family) ==> FontClassFor(family) in r
    ensures forall c :: c in ManagedFontClasses && !(FontClassAccepted(family) && c == FontClassFor(family)) ==> c !in r
    ensures forall c :: c !in ManagedFontClasses && !(FontClassAccepted(family) && c == FontClassFor(family)) ==>
              (c in r <==> c in classes)
  {
    var cleared := classes - ManagedFontClasses;
    if FontClassAccepted(family) then cleared + {FontClassFor(family)} else cleared
  }

  /** Dropping the "font-" prefix from a family's class gives the family back. */
  lemma FamilyFromClass(family: string)
    ensures |FontClassFor(family)| >= 5 && FontClassFor(family)[5..] == family
  {
    if family != "default" {
      assert ("font-" + family)[5..] == family;
    } else {
      assert "font-default"[5..] == "default";
    }
  }

  /** Distinct families get distinct classes, so the class that was added
      identifies the family. */
  lemma FontClassForInjective(f: string, g: string)
    ensures FontClassFor(f) == FontClassFor(g) ==> f == g
  {
    FamilyFromClass(f);
    FamilyFromClass(g);
  }

  /** Re-applying the same family, as `applySettings` does, changes nothing more. */
  lemma FontClassesIdempotent(classes: set<string>, family: string)
    ensures FontClasses(FontClasses(classes, family), family) == FontClasses(classes, family)
  {
  }

  /** A family whose name holds ASCII whitespace ("Open Sans") only clears the
      managed classes. */
  lemma WhitespaceFamilyOnlyClears(classes: set<string>, family: string)
    requires HasAsciiWhitespace(family)
    ensures FontClasses(classes, family) == classes - ManagedFontClasses
  {
    FontClassAcceptedIff(family);
  }

  /** After a known family only that family's class remains among the managed
      ones, whatever was there before. */
  lemma {:induction false} OneManagedClass(classes: set<string>, family: string)
    requires family in KnownFamilies
    ensures FontClasses(classes, family) * ManagedFontClasses == {FontClassFor(family)}
  {
    FontClassManagedIff(family);
    FontClassAcceptedIff(family);
  }

  /** When the previous family was a known one, the last choice wins outright:
      the earlier choice leaves no trace. */
  lemma {:induction false} LastChoiceWins(classes: set<string>, f: string, g: string)
    requires f in KnownFamilies
    ensures FontClasses(FontClasses(classes, f), g) == FontClasses(classes, g)
  {
    FontClassManagedIff(f);
  }

  /** The class of a family outside the known ones is never removed again: it
      survives every later choice. */
  lemma {:induction false} UnknownFamilyAccumulates(classes: set<string>, f: string, g: string)
    requires f !in KnownFamilies && !HasAsciiWhitespace(f)
    ensures FontClassFor(f) in FontClasses(FontClasses(classes, f), g)
  {
    FontClassManagedIff(f);
    FontClassAcceptedIff(f);
  }
}
