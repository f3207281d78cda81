/**
 * ASCII text handling used by the pipeline: the whitespace predicate of
 * Python's str.strip, ASCII case folding, substring containment and the
 * normaliser clean_text (utils.py).
 */
module AsciiText {

  /** Python's str.isspace on the ASCII range: \t \n \v \f \r (9-13),
      the separators 0x1C-0x1F and the space character. */
  predicate IsSpace(c: char) {
    9 <= c as int <= 13 || 28 <= c as int <= 32
  }

  /** ASCII case folding of one character, as str.lower does for ASCII. */
  function LowerChar(c: char): (r: char)
    ensures 'A' <= c <= 'Z' ==> r as int == c as int + 32
    ensures !('A' <= c <= 'Z') ==> r == c
  {
    if 'A' <= c <= 'Z' then (c as int + 32) as char else c
  }

  /** str.lower restricted to ASCII: every character folded on its own. */
  function Lower(s: string): (r: string)
    ensures |r| == |s|
    ensures forall i :: 0 <= i < |s| ==> r[i] == LowerChar(s[i])
    ensures forall i :: 0 <= i < |r| ==> !('A' <= r[i] <= 'Z')
  {
    seq(|s|, i requires 0 <= i < |s| => LowerChar(s[i]))
  }

  /** Python's `pat in text` for strings: pat occurs at some position of text. */
  predicate Contains(text: string, pat: string)
    decreases |text|
  {
    pat <= text || (text != [] && Contains(text[1..], pat))
  }

  /** pat occurs in text starting at position i. */
  predicate OccursAt(text: string, pat: string, i: int) {
    0 <= i <= |text| - |pat| && text[i..i + |pat|] == pat
  }

  /** Contains is exactly "some slice of text equals pat". */
  lemma {:induction false} ContainsIff(text: string, pat: string)
    ensures Contains(text, pat) <==> exists i :: OccursAt(text, pat, i)
    decreases |text|
  {
    if pat <= text {
      assert OccursAt(text, pat, 0);
    } else if text != [] {
      ContainsIff(text[1..], pat);
      forall i | OccursAt(text[1..], pat, i) ensures OccursAt(text, pat, i + 1) {
        assert text[i + 1..i + 1 + |pat|] == text[1..][i..i + |pat|];
      }
      assert !OccursAt(text, pat, 0);
      forall i | OccursAt(text, pat, i) && i > 0 ensures OccursAt(text[1..], pat, i - 1) {
        assert text[1..][i - 1..i - 1 + |pat|] == text[i..i + |pat|];
      }
    }
  }

  /** A non-empty pattern never occurs in the empty text. */
  lemma NotContainedInEmpty(pat: string)
    requires pat != []
    ensures !Contains([], pat)
  {
  }

  /** The first pass of clean_text: every '\n' and every '\r' becomes a space. */
  function ReplaceLineBreaks(s: string): (r: string)
    ensures |r| == |s|
    ensures forall i :: 0 <= i < |s| ==>
              r[i] == (if s[i] == '\n' || s[i] == '\r' then ' ' else s[i])
    ensures forall i :: 0 <= i < |r| ==> r[i] != '\n' && r[i] != '\r'
  {
    seq(|s|, i requires 0 <= i < |s| => if s[i] == '\n' || s[i] == '\r' then ' ' else s[i])
  }

  /** The end of the run of whitespace that starts at position i. */
  function SpacesFrom(s: string, i: nat): (j: nat)
    requires i <= |s|
    ensures i <= j <= |s|
    ensures forall k :: i <= k < j ==> IsSpace(s[k])
    ensures j == |s| || !IsSpace(s[j])
    decreases |s| - i
  {
    if i < |s| && IsSpace(s[i]) then SpacesFrom(s, i + 1) else i
  }

  /** The start of the run of whitespace that ends just before position j. */
  function SpacesBefore(s: string, j: nat): (i: nat)
    requires j <= |s|
    ensures i <= j
    ensures forall k :: i <= k < j ==> IsSpace(s[k])
    ensures i == 0 || !IsSpace(s[i - 1])
  {
    if j > 0 && IsSpace(s[j - 1]) then SpacesBefore(s, j - 1) else j
  }

  /** str.strip(): the text between the leading and the trailing whitespace,
      or the empty string when the text is all whitespace. */
  function Strip(s: string): (r: string)
    ensures |r| <= |s|
    ensures r == [] || (!IsSpace(r[0]) && !IsSpace(r[|r| - 1]))
    ensures r == [] <==> forall k :: 0 <= k < |s| ==> IsSpace(s[k])
  {
    var lo := SpacesFrom(s, 0);
    if lo == |s| then [] else s[lo..SpacesBefore(s, |s|)]
  }

  /** clean_text: line breaks to spaces, then strip the surrounding whitespace. */
  function CleanText(s: string): (r: string)
    ensures forall k :: 0 <= k < |r| ==> r[k] != '\n' && r[k] != '\r'
    ensures r == [] || (!IsSpace(r[0]) && !IsSpace(r[|r| - 1]))
  {
    Strip(ReplaceLineBreaks(s))
  }

  /** The result of clean_text is the line-break-replaced input with a
      whitespace-only prefix and a whitespace-only suffix cut off. */
  lemma CleanTextIsTrimmedSlice(s: string)
    ensures var t := ReplaceLineBreaks(s);
            exists lo, hi :: 0 <= lo <= hi <= |t| && CleanText(s) == t[lo..hi] &&
              (forall k :: 0 <= k < lo ==> IsSpace(t[k])) &&
              (forall k :: hi <= k < |t| ==> IsSpace(t[k]))
  {
    var t := ReplaceLineBreaks(s);
    var lo := SpacesFrom(t, 0);
    if lo == |t| {
      assert CleanText(s) == t[lo..lo];
    } else {
      var hi := SpacesBefore(t, |t|);
      assert CleanText(s) == t[lo..hi];
    }
  }

  /** A string with no whitespace at either end is left as it is by strip. */
  lemma StripOfStripped(s: string)
    requires s == [] || (!IsSpace(s[0]) && !IsSpace(s[|s| - 1]))
    ensures Strip(s) == s
  {
    if s != [] {
      assert SpacesFrom(s, 0) == 0;
      assert SpacesBefore(s, |s|) == |s|;
    }
  }

  /** clean_text applied twice is clean_text applied once. */
  lemma CleanTextIdempotent(s: string)
    ensures CleanText(CleanText(s)) == CleanText(s)
  {
    var r := CleanText(s);
    assert ReplaceLineBreaks(r) == r;
    StripOfStripped(r);
  }

  /** clean_text gives the empty string exactly when the input is all whitespace
      (line breaks included). */
  lemma CleanTextEmptyIff(s: string)
    ensures CleanText(s) == [] <==> forall k :: 0 <= k < |s| ==> IsSpace(s[k])
  {
    var t := ReplaceLineBreaks(s);
    assert forall k :: 0 <= k < |s| ==> (IsSpace(t[k]) <==> IsSpace(s[k]));
  }
}
