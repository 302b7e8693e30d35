/**
 * What the year of a link is, stated without the regular expression: the
 * value of the digits after the last '/', or 0.
 */
module YearFacts {
  import opened Wrappers
  import opened JavaText
  import opened Years

  /** The last '/' before `n` is the one at `r` when no '/' lies between `r` and `n`. */
  lemma LastSlashUnique(s: string, n: nat, r: nat)
    requires r < n <= |s| && s[r] == '/' && forall k :: r < k < n ==> s[k] != '/'
    ensures LastSlashBefore(s, n) == r
  {
    LastSlashFacts(s, n);
  }

  /** A run of `m` digits at `i`, not followed by another digit, is the run `DigitRunFrom` measures. */
  lemma DigitRunUnique(s: string, i: nat, m: nat)
    requires i + m <= |s| && (forall k :: i <= k < i + m ==> IsDigit(s[k])) && (i + m < |s| ==> !IsDigit(s[i + m]))
    ensures DigitRunFrom(s, i) == m
  {
    DigitRunFacts(s, i);
  }

  /** The run of digits at `i` is the run at the start of the suffix from `i`. */
  lemma {:induction false} DigitRunOfSuffix(s: string, i: nat)
    requires i <= |s|
    ensures DigitRunFrom(s, i) == DigitRunFrom(s[i..], 0)
  {
    var m := DigitRunFrom(s[i..], 0);
    DigitRunFacts(s[i..], 0);
    forall k | i <= k < i + m ensures IsDigit(s[k]) {
      assert s[k] == s[i..][k - i];
    }
    if i + m < |s| {
      assert s[i + m] == s[i..][m];
    }
    DigitRunUnique(s, i, m);
  }

  /** Two strings that agree on their first `n` characters have the same last line terminator among them. */
  lemma {:induction false} LastTerminatorAgree(s: string, t: string, n: nat)
    requires n <= |s| && n <= |t| && forall k :: 0 <= k < n ==> s[k] == t[k]
    ensures LastTerminatorBefore(s, n) == LastTerminatorBefore(t, n)
  {
    if n > 0 {
      assert s[n - 1] == t[n - 1];
      LastTerminatorAgree(s, t, n - 1);
    }
  }

  /** In `head + "/" + tail`, the '/' between them has no other after it when `tail` has none. */
  lemma {:induction false} SlashBetween(head: string, tail: string)
    requires '/' !in tail
    ensures var url := head + "/" + tail;
            && url[|head|] == '/'
            && forall k :: |head| < k < |url| ==> url[k] != '/'
  {
    var url := head + "/" + tail;
    forall k | |head| < k < |url| ensures url[k] != '/' {
      assert url[k] == tail[k - |head| - 1];
    }
  }

  /** The last '/' of `head + "/" + tail` is the one between them when `tail` has none. */
  lemma {:induction false} LastSlashBetween(head: string, tail: string)
    requires '/' !in tail
    ensures var url := head + "/" + tail; LastSlashBefore(url, |url|) == |head|
  {
    var url := head + "/" + tail;
    SlashBetween(head, tail);
    LastSlashUnique(url, |url|, |head|);
  }

  /** With a match at the last '/' (position `j`), the line holding it is cut down to what follows the '/'. */
  lemma {:induction false} ReplaceMatched(url: string, j: nat, n: nat, lineStart: nat)
    requires j < |url| && LastSlashBefore(url, |url|) == j
    requires DigitRunFrom(url, j + 1) == n && n > 0 && FinalTerminatorAt(url, j + 1 + n)
    requires lineStart == LastTerminatorBefore(url, j) + 1
    ensures ReplaceTrailingNumber(url) == url[..lineStart] + url[j + 1..]
  {
  }

  /** Without a match at the last '/' (position `j`), the string stays as it is. */
  lemma {:induction false} ReplaceUnmatched(url: string, j: nat, n: nat)
    requires j < |url| && LastSlashBefore(url, |url|) == j
    requires DigitRunFrom(url, j + 1) == n && !(n > 0 && FinalTerminatorAt(url, j + 1 + n))
    ensures ReplaceTrailingNumber(url) == url
  {
  }

  /**
   * The replacement on `head + "/" + tail`: when `tail` is digits followed by
   * at most a final line terminator, the line holding the '/' is cut down to
   * `tail`; otherwise nothing changes.
   */
  lemma {:induction false} ReplaceAfterLastSlash(head: string, tail: string)
    requires '/' !in tail
    ensures var n := DigitRunFrom(tail, 0);
            ReplaceTrailingNumber(head + "/" + tail) ==
              if n > 0 && FinalTerminatorAt(tail, n)
              then head[..LastTerminatorBefore(head, |head|) + 1] + tail
              else head + "/" + tail
  {
    var url := head + "/" + tail;
    var n := DigitRunFrom(tail, 0);
    SplitFacts(head, tail);
    if n > 0 && FinalTerminatorAt(tail, n) {
      ReplaceMatched(url, |head|, n, LastTerminatorBefore(head, |head|) + 1);
    } else {
      ReplaceUnmatched(url, |head|, n);
    }
  }

  /** How the scans of `head + "/" + tail` relate to the scans of `head` and of `tail`. */
  lemma {:induction false} SplitFacts(head: string, tail: string)
    requires '/' !in tail
    ensures var url := head + "/" + tail;
            var n := DigitRunFrom(tail, 0);
            var lineStart := LastTerminatorBefore(head, |head|) + 1;
            && LastSlashBefore(url, |url|) == |head|
            && DigitRunFrom(url, |head| + 1) == n
            && (FinalTerminatorAt(url, |head| + 1 + n) <==> FinalTerminatorAt(tail, n))
            && url[|head| + 1..] == tail
            && LastTerminatorBefore(url, |head|) == LastTerminatorBefore(head, |head|)
            && url[..lineStart] == head[..lineStart]
  {
    var url := head + "/" + tail;
    LastSlashBetween(head, tail);
    assert url[|head| + 1..] == tail;
    DigitRunOfSuffix(url, |head| + 1);
    var n := DigitRunFrom(tail, 0);
    FinalTerminatorShift(head + "/", tail, n);
    LastTerminatorAgree(url, head, |head|);
    var lineStart := LastTerminatorBefore(head, |head|) + 1;
    assert url[..lineStart] == head[..lineStart];
  }

  /** `$` matches at the same place in `tail` and in `line + tail`. */
  lemma FinalTerminatorShift(line: string, tail: string, n: nat)
    requires n <= |tail|
    ensures FinalTerminatorAt(line + tail, |line| + n) <==> FinalTerminatorAt(tail, n)
  {
    var s := line + tail;
    if n < |tail| {
      assert s[|line| + n] == tail[n];
    }
    if n + 1 < |tail| {
      assert s[|line| + n + 1] == tail[n + 1];
    }
  }

  /** `parseInt` rejects a string with a character that is neither a digit nor a leading sign. */
  lemma ParseRejects(s: string, i: int)
    requires 0 <= i < |s| && !IsDigit(s[i]) && !IsSign(s[i])
    ensures ParseInt(s) == None
  {
    if IsSign(s[0]) {
      assert s[1..][i - 1] == s[i];
    }
  }

  /** Without a match the '/' stays, and `parseInt` rejects the string. */
  lemma {:induction false} ParseUnmatched(head: string, tail: string)
    requires !(DigitRunFrom(tail, 0) > 0 && FinalTerminatorAt(tail, DigitRunFrom(tail, 0)))
    ensures ParseInt(head + "/" + tail) == None
    ensures !(tail != [] && AllDigits(tail))
  {
    var url := head + "/" + tail;
    assert url[|head|] == '/';
    ParseRejects(url, |head|);
    DigitRunFacts(tail, 0);
  }

  /** A match whose digits are followed by a final line terminator leaves that terminator in place. */
  lemma {:induction false} ParseKeepsTerminator(line: string, tail: string, n: nat)
    requires n < |tail| && !IsDigit(tail[n]) && FinalTerminatorAt(tail, n)
    ensures ParseInt(line + tail) == None
  {
    assert (line + tail)[|line| + n] == tail[n];
    ParseRejects(line + tail, |line| + n);
  }

  /** A match on a line that is not the first leaves the earlier lines, and the terminator ending them, in place. */
  lemma {:induction false} ParseKeepsEarlierLines(head: string, tail: string, lineStart: nat)
    requires 0 < lineStart <= |head| && IsLineTerminator(head[lineStart - 1])
    ensures ParseInt(head[..lineStart] + tail) == None
  {
    var replaced := head[..lineStart] + tail;
    assert replaced[lineStart - 1] == head[lineStart - 1];
    ParseRejects(replaced, lineStart - 1);
  }

  /** A match on the first line, digits to the end: `parseInt` sees just the digits. */
  lemma ParseDigitsOnly(tail: string)
    requires tail != [] && AllDigits(tail)
    ensures ParseInt(tail) == if DigitsValue(tail) <= MaxInt then Some(DigitsValue(tail)) else None
  {
  }

  /** A string without line terminators has none before any position. */
  lemma NoTerminatorBefore(head: string)
    requires NoLineTerminator(head)
    ensures LastTerminatorBefore(head, |head|) == -1
  {
    LastTerminatorFacts(head, |head|);
  }

  /** A string with a line terminator has its last one at a position the scan finds. */
  lemma SomeTerminatorBefore(head: string)
    requires !NoLineTerminator(head)
    ensures var r := LastTerminatorBefore(head, |head|); 0 <= r && IsLineTerminator(head[r])
  {
    LastTerminatorFacts(head, |head|);
  }

  /**
   * Every string holding a '/' splits at its last '/' into `head + "/" + tail`.
   * Its year is the value of `tail` when `tail` is one or more ASCII digits
   * with a value that fits in an `int` and `head` has no line terminator;
   * in every other case it is 0.
   */
  lemma {:induction false} ExtractYearAfterLastSlash(head: string, tail: string)
    requires '/' !in tail
    ensures ExtractYear(head + "/" + tail) ==
              if NoLineTerminator(head) && tail != [] && AllDigits(tail) && DigitsValue(tail) <= MaxInt
              then DigitsValue(tail) else 0
  {
    ReplaceAfterLastSlash(head, tail);
    var n := DigitRunFrom(tail, 0);
    DigitRunFacts(tail, 0);
    if !(n > 0 && FinalTerminatorAt(tail, n)) {
      ParseUnmatched(head, tail);
    } else if n < |tail| {
      ParseKeepsTerminator(head[..LastTerminatorBefore(head, |head|) + 1], tail, n);
    } else if !NoLineTerminator(head) {
      SomeTerminatorBefore(head);
      ParseKeepsEarlierLines(head, tail, LastTerminatorBefore(head, |head|) + 1);
    } else {
      NoTerminatorBefore(head);
      assert head[..0] + tail == tail;
      ParseDigitsOnly(tail);
    }
  }

  /** A '/'-free string is handed to `parseInt` as it is. */
  lemma {:induction false} ExtractYearWithoutSlash(url: string)
    requires '/' !in url
    ensures ExtractYear(url) == match ParseInt(url) case Some(v) => v case None => 0
  {
    LastSlashFacts(url, |url|);
    assert LastSlashBefore(url, |url|) < 0;
  }

  /**
   * The year of `base + href` is the year of `href` when `href` holds a '/'
   * and `base` has no line terminator: `main` tests the year of
   * `baseUrl + href` against the window computed from the years of `href`.
   */
  lemma {:induction false} ExtractYearIgnoresPrefix(base: string, href: string)
    requires '/' in href && NoLineTerminator(base)
    ensures ExtractYear(base + href) == ExtractYear(href)
  {
    var head, tail := SplitAtLastSlash(href);
    ExtractYearAfterLastSlash(head, tail);
    Regroup(base, head, tail);
    ExtractYearAfterLastSlash(base + head, tail);
    NoLineTerminatorAppend(base, head);
  }

  /** A string holding a '/' is the text before its last '/', the '/', and a '/'-free rest. */
  lemma {:induction false} SplitAtLastSlash(href: string) returns (head: string, tail: string)
    requires '/' in href
    ensures href == head + "/" + tail && '/' !in tail
  {
    var j := LastSlashBefore(href, |href|);
    LastSlashFacts(href, |href|);
    var k :| 0 <= k < |href| && href[k] == '/';
    assert j >= k;
    head, tail := href[..j], href[j + 1..];
    assert href == head + "/" + tail;
    forall c | 0 <= c < |tail| ensures tail[c] != '/' {
      assert tail[c] == href[j + 1 + c];
    }
  }

  /** Concatenation regrouped around the last '/'. */
  lemma Regroup(base: string, head: string, tail: string)
    ensures base + (head + "/" + tail) == (base + head) + "/" + tail
  {
  }

  /** Prefixing a string without line terminators adds none. */
  lemma NoLineTerminatorAppend(base: string, head: string)
    requires NoLineTerminator(base)
    ensures NoLineTerminator(base + head) <==> NoLineTerminator(head)
  {
    if NoLineTerminator(head) {
      forall c | 0 <= c < |base + head| ensures !IsLineTerminator((base + head)[c]) {
        if c >= |base| { assert (base + head)[c] == head[c - |base|]; }
      }
    } else {
      var c :| 0 <= c < |head| && IsLineTerminator(head[c]);
      assert (base + head)[|base| + c] == head[c];
    }
  }

  /** The archive link of the 2021 edition resolves to 2021. */
  lemma ExtractYearExample()
    ensures ExtractYear("https://papers.nips.cc/paper_files/paper/2021") == 2021
  {
    var head := "https://papers.nips.cc/paper_files/paper";
    assert "https://papers.nips.cc/paper_files/paper/2021" == head + "/" + "2021";
    assert NoLineTerminator(head);
    var digits := "2021";
    assert PrefixValue(digits, 1) == 2;
    assert PrefixValue(digits, 2) == 20;
    assert PrefixValue(digits, 3) == 202;
    assert PrefixValue(digits, 4) == 2021;
    ExtractYearAfterLastSlash(head, "2021");
  }
}
