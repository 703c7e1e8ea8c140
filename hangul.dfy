/**
 * The language heuristic of the handler: `isHangul` (api/translation.go:29-44) and the
 * choice of target language (api/translation.go:77-82). The command text is the
 * sequence of code points that Go's `range` over the string yields; invalid UTF-8
 * becomes U+FFFD, which is outside the Hangul range.
 */
module Hangul {
  const HangulBase: int := 0xAC00
  const HangulEnd: int := 0xD7A4

  /** A code point of the Hangul syllables block, `[HangulBase, HangulEnd)`. */
  predicate IsHangulSyllable(c: char)
  {
    HangulBase <= c as int < HangulEnd
  }

  predicate ContainsHangul(s: string)
  {
    exists i :: 0 <= i < |s| && IsHangulSyllable(s[i])
  }

  /** `isHangul(s)`: a scan that stops at the first Hangul syllable. */
  method IsHangul(s: string) returns (found: bool)
    ensures found <==> ContainsHangul(s)
  {
    for i := 0 to |s|
      invariant forall j :: 0 <= j < i ==> !IsHangulSyllable(s[j])
    {
      if IsHangulSyllable(s[i]) {
        return true;
      }
    }
    return false;
  }

  /** Korean text is translated to English, anything else to Korean. */
  method ChooseTargetLanguage(text: string) returns (targetLanguage: string)
    ensures targetLanguage == "en" || targetLanguage == "ko"
    ensures targetLanguage == "en" <==> ContainsHangul(text)
  {
    var korean := IsHangul(text);
    if korean {
      targetLanguage := "en";
    } else {
      targetLanguage := "ko";
    }
  }

  /** The bounds: U+AC00 and U+D7A3 count, U+ABFF, U+D7A4 and U+FFFD do not. */
  lemma HangulBounds()
    ensures IsHangulSyllable('\U{AC00}') && IsHangulSyllable('\U{D7A3}')
    ensures !IsHangulSyllable('\U{ABFF}') && !IsHangulSyllable('\U{D7A4}')
    ensures !IsHangulSyllable('\U{FFFD}')
    ensures !ContainsHangul("")
  {
  }

  /** Text contains Hangul exactly when one of its parts does. */
  lemma ContainsHangulAppend(a: string, b: string)
    ensures ContainsHangul(a + b) <==> ContainsHangul(a) || ContainsHangul(b)
  {
    if ContainsHangul(a + b) {
      var i :| 0 <= i < |a + b| && IsHangulSyllable((a + b)[i]);
      if i >= |a| {
        assert b[i - |a|] == (a + b)[i];
      }
    }
    if ContainsHangul(a) {
      var j :| 0 <= j < |a| && IsHangulSyllable(a[j]);
      assert (a + b)[j] == a[j];
    }
    if ContainsHangul(b) {
      var j :| 0 <= j < |b| && IsHangulSyllable(b[j]);
      assert (a + b)[|a| + j] == b[j];
    }
  }
}
