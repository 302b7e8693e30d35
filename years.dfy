/**
 * The year resolver: the year of an archive link is read from the digits after
 * its last '/'.
 */
module Years {
  import opened Wrappers
  import opened JavaText

  /** Number of years in the target window (`for (int i = 0; i < 5; i++)`). */
  const WindowSize: nat := 5

  /**
   * Whether `$` matches at position `i`: what is left from `i` on is nothing,
   * or one final line terminator ("\r\n" counts as one).
   */
  predicate FinalTerminatorAt(s: string, i: nat) {
    i == |s|
    || (i + 1 == |s| && IsLineTerminator(s[i]))
    || (i + 2 == |s| && s[i] == '\r' && s[i + 1] == '\n')
  }

  /**
   * `replaceAll` with the pattern "any characters, '/', digits, end" keeping
   * only the digits (PDFScraper.java, line 82). The leftmost match starts where the
   * line holding the last '/' starts (`.` stops at line terminators), runs to
   * that '/', then takes the digits after it, which must be followed by the
   * end of input or by one final line terminator. The match is replaced by the
   * digits it captured and a final terminator after them is kept, so what is
   * left is the text before that line followed by everything after the '/'.
   * Without a match the string comes back unchanged.
   */
  function ReplaceTrailingNumber(url: string): (r: string)
    ensures |r| <= |url|
  {
    var j := LastSlashBefore(url, |url|);
    if j < 0 then url
    else
      var n := DigitRunFrom(url, j + 1);
      if n > 0 && FinalTerminatorAt(url, j + 1 + n) then
        var lineStart := LastTerminatorBefore(url, j) + 1;
        url[..lineStart] + url[j + 1..]
      else url
  }

  /**
   * `extractYearFromUrl`: it never throws; a string that does not parse as
   * an `int` after the replacement gives 0.
   */
  function ExtractYear(url: string): (year: int)
    ensures MinInt <= year <= MaxInt
  {
    match ParseInt(ReplaceTrailingNumber(url))
    case Some(v) => v
    case None => 0
  }
}
