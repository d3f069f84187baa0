/** The string primitives the analyzer relies on: blank tests and splitting a path. */
module Text {
  import opened Wrappers

  /** `char.IsWhiteSpace`: Unicode space separators, line and paragraph separators, and the controls U+0009 to U+000D and U+0085. */
  predicate IsWhiteSpace(c: char)
  {
    || ('\t' <= c <= '\r')
    || c == ' ' || c == '\U{0085}' || c == '\U{00A0}' || c == '\U{1680}'
    || ('\U{2000}' <= c <= '\U{200A}')
    || c == '\U{2028}' || c == '\U{2029}' || c == '\U{202F}' || c == '\U{205F}' || c == '\U{3000}'
  }

  /** Empty or made of white space only. */
  predicate IsBlank(s: string)
  {
    forall i :: 0 <= i < |s| ==> IsWhiteSpace(s[i])
  }

  /** `string.IsNullOrWhiteSpace`, with `None` for `null`. */
  predicate IsNullOrWhiteSpace(s: Option<string>)
  {
    s.None? || IsBlank(s.value)
  }

  /** The separators a path is split on: `/` and `\`. */
  predicate IsSeparator(c: char)
  {
    c == '/' || c == '\\'
  }

  /** The index of the first separator of `s`, or `|s|` when it has none. */
  function FirstSeparator(s: string): (i: nat)
    ensures i <= |s|
    ensures i < |s| ==> IsSeparator(s[i])
    ensures forall j :: 0 <= j < i ==> !IsSeparator(s[j])
  {
    if s == [] then 0
    else if IsSeparator(s[0]) then 0
    else 1 + FirstSeparator(s[1..])
  }

  /** How many separators `s` holds. */
  function SeparatorCount(s: string): nat
  {
    if s == [] then 0
    else (if IsSeparator(s[0]) then 1 else 0) + SeparatorCount(s[1..])
  }

  /**
   * `s.Split('/', '\\')`: the pieces between separators, empty pieces kept.
   * There is one more piece than there are separators, no piece holds a
   * separator, and the first piece is the text before the first separator.
   */
  function Split(s: string): (parts: seq<string>)
    ensures |parts| == SeparatorCount(s) + 1
    ensures forall k, j :: 0 <= k < |parts| && 0 <= j < |parts[k]| ==> !IsSeparator(parts[k][j])
    ensures parts[0] == s[..FirstSeparator(s)]
  {
    if s == [] then [""]
    else
      var rest := Split(s[1..]);
      if IsSeparator(s[0]) then [""] + rest
      else [[s[0]] + rest[0]] + rest[1..]
  }

  /**
   * The pieces, one at a time: a string without separator is its own single
   * piece; otherwise the text before the first separator is followed by the
   * pieces of the text after it.
   */
  lemma {:induction false} SplitAtFirstSeparator(s: string)
    ensures FirstSeparator(s) == |s| ==> Split(s) == [s]
    ensures FirstSeparator(s) < |s| ==>
      Split(s) == [s[..FirstSeparator(s)]] + Split(s[FirstSeparator(s) + 1..])
  {
    if s != [] && !IsSeparator(s[0]) {
      var t := s[1..];
      SplitAtFirstSeparator(t);
      var k := FirstSeparator(t);
      assert s == [s[0]] + t;
      if k == |t| {
        assert Split(s) == [[s[0]] + t];
      } else {
        assert [s[0]] + t[..k] == s[..k + 1];
        assert t[k + 1..] == s[k + 2..];
      }
    }
  }

  /** A string holds a separator exactly when its separator count is positive. */
  lemma {:induction false} SeparatorCountPositive(s: string)
    ensures SeparatorCount(s) > 0 <==> FirstSeparator(s) < |s|
  {
    if s != [] && !IsSeparator(s[0]) {
      SeparatorCountPositive(s[1..]);
    }
  }
}
