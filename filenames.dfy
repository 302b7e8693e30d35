/**
 * The file-name sanitiser of the scraper: a paper title becomes the base name
 * of the saved PDF once every character a file system may reject is replaced.
 */
module Filenames {
  /** The nine characters of the sanitiser's character class. */
  predicate IsUnsafe(c: char) {
    c == '\\' || c == '/' || c == ':' || c == '*' || c == '?' || c == '"' || c == '<' || c == '>' || c == '|'
  }

  /** The character a single position of the title becomes. */
  function SanitizeChar(c: char): char {
    if IsUnsafe(c) then '_' else c
  }

  /**
   * `sanitizeFilename`: the same title, position by position, with each unsafe
   * character replaced by an underscore and every other character kept.
   */
  function SanitizeFilename(title: string): (name: string)
    ensures |name| == |title|
    ensures forall i :: 0 <= i < |title| && IsUnsafe(title[i]) ==> name[i] == '_'
    ensures forall i :: 0 <= i < |title| && !IsUnsafe(title[i]) ==> name[i] == title[i]
  {
    if title == [] then [] else [SanitizeChar(title[0])] + SanitizeFilename(title[1..])
  }

  /** A sanitised name contains none of the unsafe characters. */
  lemma SanitizedIsSafe(title: string)
    ensures forall i :: 0 <= i < |SanitizeFilename(title)| ==> !IsUnsafe(SanitizeFilename(title)[i])
  {
  }

  /** A title is left as it is exactly when it contains no unsafe character. */
  lemma SanitizeFixesSafeTitles(title: string)
    ensures SanitizeFilename(title) == title <==> forall i :: 0 <= i < |title| ==> !IsUnsafe(title[i])
  {
    var name := SanitizeFilename(title);
    if forall i :: 0 <= i < |title| ==> !IsUnsafe(title[i]) {
      assert name == title;
    } else {
      var i :| 0 <= i < |title| && IsUnsafe(title[i]);
      assert name[i] == '_' != title[i];
    }
  }

  /** Sanitising twice is the same as sanitising once. */
  lemma SanitizeIdempotent(title: string)
    ensures SanitizeFilename(SanitizeFilename(title)) == SanitizeFilename(title)
  {
    SanitizedIsSafe(title);
    SanitizeFixesSafeTitles(SanitizeFilename(title));
  }

  /** One underscore per matched symbol, in order. */
  lemma SanitizeExample()
    ensures SanitizeFilename("A:B/C*D?") == "A_B_C_D_"
  {
    var name := SanitizeFilename("A:B/C*D?");
    assert |name| == 8;
    assert name[0] == 'A' && name[1] == '_' && name[2] == 'B' && name[3] == '_';
    assert name[4] == 'C' && name[5] == '_' && name[6] == 'D' && name[7] == '_';
  }
}
