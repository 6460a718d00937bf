/**
 * The two string normalisations the engine applies before matching
 * direction and option-type labels: Python's `str.upper()` and
 * `str.strip()`. Whitespace is Python's full `str.isspace()` set; upper
 * case is exact on ASCII and on every other character whose Python upper
 * case is ASCII text, and leaves the remaining characters alone.
 */
module Text {

  /** Python's `str.isspace()`: the ASCII separators and the Unicode space characters. */
  predicate IsSpace(c: char) {
    var n := c as int;
    (9 <= n <= 13) || (28 <= n <= 32) || n == 0x85 || n == 0xA0 || n == 0x1680 ||
    (0x2000 <= n <= 0x200A) || n == 0x2028 || n == 0x2029 || n == 0x202F || n == 0x205F || n == 0x3000
  }

  /**
   * The characters outside a..z whose Python upper case is ASCII: the
   * sharp s, the dotless i, the long s and the Latin ligatures ff .. st.
   */
  predicate Special(c: char) {
    var n := c as int;
    n == 0xDF || n == 0x131 || n == 0x17F || (0xFB00 <= n <= 0xFB06)
  }

  predicate IsLower(c: char) {
    'a' <= c <= 'z'
  }

  /** The upper case of one character, which for a ligature or the sharp s is two or three letters. */
  function UpperChar(c: char): (r: string)
    ensures IsLower(c) ==> r == [(c as int - 32) as char]
    ensures !IsLower(c) && !Special(c) ==> r == [c]
    ensures 1 <= |r| <= 3
    ensures forall i :: 0 <= i < |r| ==> !IsLower(r[i]) && !Special(r[i])
  {
    if IsLower(c) then [(c as int - 32) as char]
    else match c as int
      case 0xDF => "SS"
      case 0x131 => "I"
      case 0x17F => "S"
      case 0xFB00 => "FF"
      case 0xFB01 => "FI"
      case 0xFB02 => "FL"
      case 0xFB03 => "FFI"
      case 0xFB04 => "FFL"
      case 0xFB05 => "ST"
      case 0xFB06 => "ST"
      case _ => [c]
  }

  /** `str.upper()`: each character replaced by its upper case. */
  function Upper(s: string): (r: string)
    ensures |r| >= |s|
    ensures forall i :: 0 <= i < |r| ==> !IsLower(r[i]) && !Special(r[i])
  {
    if s == [] then [] else UpperChar(s[0]) + Upper(s[1..])
  }

  /** Text without lower-case or special characters is its own upper case. */
  lemma {:induction false} UpperFixed(s: string)
    requires forall i :: 0 <= i < |s| ==> !IsLower(s[i]) && !Special(s[i])
    ensures Upper(s) == s
    decreases |s|
  {
    if s != [] {
      UpperFixed(s[1..]);
      assert s == [s[0]] + s[1..];
    }
  }

  function StripLeft(s: string): (r: string)
    ensures r == [] || !IsSpace(r[0])
    ensures |r| <= |s| && r == s[|s| - |r|..]
    ensures forall i :: 0 <= i < |s| - |r| ==> IsSpace(s[i])
  {
    if s != [] && IsSpace(s[0]) then StripLeft(s[1..]) else s
  }

  function StripRight(s: string): (r: string)
    ensures r == [] || !IsSpace(r[|r| - 1])
    ensures |r| <= |s| && r == s[..|r|]
    ensures forall i :: |r| <= i < |s| ==> IsSpace(s[i])
  {
    if s != [] && IsSpace(s[|s| - 1]) then StripRight(s[..|s| - 1]) else s
  }

  /** `str.strip()`: removes leading and trailing whitespace. */
  function Strip(s: string): (r: string)
    ensures r == [] || (!IsSpace(r[0]) && !IsSpace(r[|r| - 1]))
  {
    StripRight(StripLeft(s))
  }

  /** `s.upper().strip()`, the normalisation applied to direction and option-type labels. */
  function Normalize(s: string): string {
    Strip(Upper(s))
  }

  lemma UpperIdempotent(s: string)
    ensures Upper(Upper(s)) == Upper(s)
  {
    UpperFixed(Upper(s));
  }

  lemma {:induction false} UpperAppend(a: string, b: string)
    ensures Upper(a + b) == Upper(a) + Upper(b)
    decreases |a|
  {
    if a == [] {
      assert a + b == b;
    } else {
      assert (a + b)[0] == a[0] && (a + b)[1..] == a[1..] + b;
      UpperAppend(a[1..], b);
    }
  }

  /** Upper-casing keeps whitespace as it is. */
  lemma UpperKeepsSpace(s: string)
    requires forall i :: 0 <= i < |s| ==> IsSpace(s[i])
    ensures Upper(s) == s
  {
    UpperFixed(s);
  }

  /** Padding with whitespace on either side does not change the stripped text. */
  lemma {:induction false} StripPadding(pre: string, s: string, post: string)
    requires forall i :: 0 <= i < |pre| ==> IsSpace(pre[i])
    requires forall i :: 0 <= i < |post| ==> IsSpace(post[i])
    ensures Strip(pre + s + post) == Strip(s)
  {
    assert pre + s + post == pre + (s + post);
    StripLeftPad(pre, s + post);
    StripLeftAppend(s, post);
    if StripLeft(s) != [] {
      StripRightPad(StripLeft(s), post);
    }
  }

  lemma {:induction false} StripLeftPad(pre: string, s: string)
    requires forall i :: 0 <= i < |pre| ==> IsSpace(pre[i])
    ensures StripLeft(pre + s) == StripLeft(s)
    decreases |pre|
  {
    if pre != [] {
      assert (pre + s)[0] == pre[0] && IsSpace(pre[0]);
      assert (pre + s)[1..] == pre[1..] + s;
      StripLeftPad(pre[1..], s);
      assert StripLeft(pre + s) == StripLeft((pre + s)[1..]);
    } else {
      assert pre + s == s;
    }
  }

  lemma {:induction false} StripLeftAppend(s: string, post: string)
    requires forall i :: 0 <= i < |post| ==> IsSpace(post[i])
    ensures StripLeft(s) != [] ==> StripLeft(s + post) == StripLeft(s) + post
    ensures StripLeft(s) == [] ==> StripLeft(s + post) == []
    decreases |s|
  {
    if s == [] {
      assert s + post == post;
      StripLeftAllSpace(post);
    } else if IsSpace(s[0]) {
      assert (s + post)[1..] == s[1..] + post;
      StripLeftAppend(s[1..], post);
    } else {
      assert (s + post)[0] == s[0];
    }
  }

  lemma {:induction false} StripLeftAllSpace(s: string)
    requires forall i :: 0 <= i < |s| ==> IsSpace(s[i])
    ensures StripLeft(s) == []
    decreases |s|
  {
    if s != [] {
      StripLeftAllSpace(s[1..]);
    }
  }

  lemma {:induction false} StripRightPad(s: string, post: string)
    requires forall i :: 0 <= i < |post| ==> IsSpace(post[i])
    ensures StripRight(s + post) == StripRight(s)
    decreases |post|
  {
    if post == [] {
      assert s + post == s;
    } else {
      var w := s + post;
      assert w[..|w| - 1] == s + post[..|post| - 1];
      StripRightPad(s, post[..|post| - 1]);
    }
  }

  /**
   * The label normalisation ignores letter case and surrounding
   * whitespace: padding a label, or upper-casing it first, gives the
   * same normal form.
   */
  lemma NormalizeIgnoresCaseAndPadding(pre: string, s: string, post: string)
    requires forall i :: 0 <= i < |pre| ==> IsSpace(pre[i])
    requires forall i :: 0 <= i < |post| ==> IsSpace(post[i])
    ensures Normalize(pre + s + post) == Normalize(s)
    ensures Normalize(Upper(s)) == Normalize(s)
  {
    UpperAppend(pre + s, post);
    UpperAppend(pre, s);
    UpperKeepsSpace(pre);
    UpperKeepsSpace(post);
    StripPadding(Upper(pre), Upper(s), Upper(post));
    UpperIdempotent(s);
  }

  lemma UpperOne(c: char)
    ensures Upper([c]) == UpperChar(c)
  {
    assert [c][1..] == [];
  }

  /** A string of three characters is upper-cased character by character. */
  lemma UpperThree(a: char, b: char, c: char)
    ensures Upper([a, b, c]) == UpperChar(a) + UpperChar(b) + UpperChar(c)
  {
    assert [a, b, c] == [a] + [b] + [c];
    UpperAppend([a] + [b], [c]);
    UpperAppend([a], [b]);
    UpperOne(a);
    UpperOne(b);
    UpperOne(c);
  }

  /** Text that neither starts nor ends with whitespace is already stripped. */
  lemma StripUnpadded(x: string)
    requires x != [] && !IsSpace(x[0]) && !IsSpace(x[|x| - 1])
    ensures Strip(x) == x
  {
    assert StripLeft(x) == x;
  }

  /** Python strips the no-break and em spaces around a label and upper-cases what is left. */
  lemma UnicodePadding()
    ensures Normalize("\U{A0}l\U{2003}") == "L"
  {
    UpperThree('\U{A0}', 'l', '\U{2003}');
    assert Upper("\U{A0}l\U{2003}") == ['\U{A0}'] + "L" + ['\U{2003}'];
    StripPadding(['\U{A0}'], "L", ['\U{2003}']);
    StripUnpadded("L");
    assert Strip("L") == "L";
  }

  /** Python upper-cases the long s to S. */
  lemma LongSIsS()
    ensures Normalize("\U{17F}") == "S"
  {
    UpperOne('\U{17F}');
    assert Upper("\U{17F}") == "S";
    StripUnpadded("S");
  }

  /** Python upper-cases the sharp s to two letters, so upper-casing can lengthen a string. */
  lemma SharpSIsSS()
    ensures Upper("\U{DF}") == "SS"
  {
    UpperOne('\U{DF}');
  }
}
