/**
 * Flag emoji: each UTF-16 code unit of the upper-cased country code is
 * shifted into the Regional Indicator Symbols (section 22.10 of the Unicode
 * Standard), so that "AD" becomes U+1F1E6 U+1F1E9.
 */
module Flags {
  import opened Strings

  /** The distance from 'A' to REGIONAL INDICATOR SYMBOL LETTER A (U+1F1E6). */
  const RegionalOffset: int := 127397

  /** The UTF-16 code units of a character: what `split("")` and `charCodeAt` see. */
  function CodeUnits(c: char): (us: seq<int>)
    ensures 1 <= |us| <= 2
    ensures forall i :: 0 <= i < |us| ==> 0 <= us[i] <= 0xFFFF
    ensures c as int <= 0xFFFF <==> |us| == 1
  {
    if c as int <= 0xFFFF then [c as int]
    else
      var v := c as int - 0x10000;
      [0xD800 + v / 0x400, 0xDC00 + v % 0x400]
  }

  /** A surrogate pair reads back as the character it encodes. */
  lemma SurrogatePairDecodes(c: char)
    requires c as int > 0xFFFF
    ensures var us := CodeUnits(c);
      && 0xD800 <= us[0] < 0xDC00 && 0xDC00 <= us[1] < 0xE000
      && 0x10000 + (us[0] - 0xD800) * 0x400 + (us[1] - 0xDC00) == c as int
  {
    var v := c as int - 0x10000;
    assert v == (v / 0x400) * 0x400 + v % 0x400;
  }

  /** The code units of a string, in order. */
  function Units(s: string): (us: seq<int>)
    ensures |us| >= |s|
    ensures forall i :: 0 <= i < |us| ==> 0 <= us[i] <= 0xFFFF
  {
    if s == [] then [] else CodeUnits(s[0]) + Units(s[1..])
  }

  /** A string without astral characters has one code unit per character. */
  lemma {:induction false} UnitsOfBmp(s: string)
    requires forall i :: 0 <= i < |s| ==> s[i] as int <= 0xFFFF
    ensures |Units(s)| == |s|
    ensures forall i :: 0 <= i < |s| ==> Units(s)[i] == s[i] as int
  {
    if s != [] {
      UnitsOfBmp(s[1..]);
    }
  }

  /** One code unit moved into the regional-indicator range; never a surrogate or out of range. */
  function Shift(u: int): (c: char)
    requires 0 <= u <= 0xFFFF
    ensures c as int == RegionalOffset + u
  {
    (RegionalOffset + u) as char
  }

  function ShiftAll(us: seq<int>): (r: string)
    requires forall i :: 0 <= i < |us| ==> 0 <= us[i] <= 0xFFFF
    ensures |r| == |us|
    ensures forall i :: 0 <= i < |us| ==> r[i] as int == RegionalOffset + us[i]
  {
    if us == [] then [] else [Shift(us[0])] + ShiftAll(us[1..])
  }

  /** `getFlagEmoji`: one code point 127397 + unit per code unit of the upper-cased code. */
  function FlagEmoji(code: string): (r: string)
    ensures |r| == |Units(Upper(code))| >= |code|
    ensures forall i :: 0 <= i < |r| ==> r[i] as int == RegionalOffset + Units(Upper(code))[i]
  {
    ShiftAll(Units(Upper(code)))
  }

  /** The case of the code does not matter. */
  lemma FlagEmojiCaseInsensitive(code: string)
    ensures FlagEmoji(Lower(code)) == FlagEmoji(code)
  {
    UpperOfLower(code);
  }

  predicate IsAlpha2(code: string) {
    |code| == 2 && IsAsciiLetter(code[0]) && IsAsciiLetter(code[1])
  }

  /** A regional indicator symbol letter: U+1F1E6 to U+1F1FF. */
  predicate IsRegionalIndicator(c: char) { '\U{1F1E6}' <= c <= '\U{1F1FF}' }

  /** A two-letter code gives two regional indicators, the i-th standing for its i-th letter. */
  lemma FlagOfAlpha2(code: string)
    requires IsAlpha2(code)
    ensures var r := FlagEmoji(code);
      && |r| == 2
      && IsRegionalIndicator(r[0]) && IsRegionalIndicator(r[1])
      && r[0] as int - 0x1F1E6 == Upper(code)[0] as int - 'A' as int
      && r[1] as int - 0x1F1E6 == Upper(code)[1] as int - 'A' as int
  {
    var u := Upper(code);
    UnitsOfBmp(u);
  }

  /** Reads a flag back into letters: each indicator moved down by the same offset. */
  function FlagLetters(r: string): string {
    if r == [] then []
    else
      var v := r[0] as int - RegionalOffset;
      (if 0 <= v < 0xD800 then [v as char] else []) + FlagLetters(r[1..])
  }

  /** For a code without astral characters, the flag reads back as the upper-cased code. */
  lemma {:induction false} FlagLettersOfFlag(code: string)
    requires forall i :: 0 <= i < |code| ==> code[i] as int < 0xD800
    ensures FlagLetters(FlagEmoji(code)) == Upper(code)
  {
    var u := Upper(code);
    assert forall i :: 0 <= i < |u| ==> u[i] as int < 0xD800;
    UnitsOfBmp(u);
    FlagLettersShift(u);
  }

  lemma {:induction false} FlagLettersShift(u: string)
    requires forall i :: 0 <= i < |u| ==> u[i] as int < 0xD800
    ensures FlagLetters(ShiftAll(Units(u))) == u
  {
    if u != [] {
      UnitsOfBmp(u);
      UnitsOfBmp(u[1..]);
      FlagLettersShift(u[1..]);
      assert Units(u)[1..] == Units(u[1..]);
      assert ShiftAll(Units(u))[1..] == ShiftAll(Units(u[1..]));
    }
  }

  /**
   * The flag helper of the domains page: "UK" is shown as GB, and EU, SU and
   * XK have no flag. The special cases are checked before upper-casing.
   */
  function DomainFlagEmoji(code: string): (r: string)
    ensures code == "EU" || code == "SU" || code == "XK" ==> r == ""
    ensures code == "UK" ==> r == "\U{1F1EC}\U{1F1E7}"
    ensures code != "UK" && code != "EU" && code != "SU" && code != "XK" ==> r == FlagEmoji(code)
  {
    if code == "UK" then
      FlagOfAlpha2("GB");
      FlagEmoji("GB")
    else if code == "EU" || code == "SU" || code == "XK" then ""
    else FlagEmoji(code)
  }
}
