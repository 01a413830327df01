// Python string operations the translators rely on: `str.strip()` with no
// argument (used to decide whether a string node is blank and to cut the
// dry-run samples) and the case-insensitive `.epub` suffix test on the
// input path.

module Text {

  /** Python's `str.isspace()` for one character: the characters that
      `str.strip()` removes when called without an argument. */
  predicate IsSpace(c: char)
  {
    var n := c as int;
    (0x09 <= n <= 0x0D) || (0x1C <= n <= 0x20) || n == 0x85 || n == 0xA0
    || n == 0x1680 || (0x2000 <= n <= 0x200A) || n == 0x2028 || n == 0x2029
    || n == 0x202F || n == 0x205F || n == 0x3000
  }

  /** A string made of whitespace only (the empty string included). */
  predicate IsBlank(s: string)
  {
    forall i :: 0 <= i < |s| ==> IsSpace(s[i])
  }

  /** Python's `s.lstrip()`: the suffix left after the leading whitespace. */
  function TrimStart(s: string): (r: string)
    ensures |r| <= |s| && r == s[|s| - |r|..]
    ensures forall i :: 0 <= i < |s| - |r| ==> IsSpace(s[i])
    ensures r != [] ==> !IsSpace(r[0])
  {
    if s != [] && IsSpace(s[0]) then TrimStart(s[1..]) else s
  }

  /** Python's `s.rstrip()`: the prefix left before the trailing whitespace. */
  function TrimEnd(s: string): (r: string)
    ensures |r| <= |s| && r == s[..|r|]
    ensures forall i :: |r| <= i < |s| ==> IsSpace(s[i])
    ensures r != [] ==> !IsSpace(r[|r| - 1])
  {
    if s != [] && IsSpace(s[|s| - 1]) then TrimEnd(s[..|s| - 1]) else s
  }

  /** Python's `s.strip()`. */
  function Strip(s: string): string
  {
    TrimEnd(TrimStart(s))
  }

  /** A string node's `strip()` is empty exactly when the node is blank. */
  lemma StripEmptyIffBlank(s: string)
    ensures Strip(s) == [] <==> IsBlank(s)
  {
  }

  /** ASCII case folding as Python's `str.lower()` does it for A-Z. */
  function LowerChar(c: char): char
  {
    if 'A' <= c <= 'Z' then (c as int + 32) as char else c
  }

  function Lower(s: string): (r: string)
    ensures |r| == |s|
  {
    seq(|s|, i requires 0 <= i < |s| => LowerChar(s[i]))
  }

  /** `path.lower().endswith('.epub')`, the input check of the batched translator. */
  predicate HasEpubSuffix(path: string)
  {
    var low := Lower(path);
    |low| >= 5 && low[|low| - 5..] == ".epub"
  }

  /** The suffix test accepts exactly the paths whose last five characters
      spell ".epub" in any mix of upper and lower case. */
  lemma EpubSuffixIff(path: string)
    ensures HasEpubSuffix(path) <==>
      |path| >= 5 && path[|path| - 5] == '.' && path[|path| - 4] in "eE"
      && path[|path| - 3] in "pP" && path[|path| - 2] in "uU" && path[|path| - 1] in "bB"
  {
    var low := Lower(path);
    if |path| >= 5 {
      var tail := low[|low| - 5..];
      assert forall k :: 0 <= k < 5 ==> tail[k] == LowerChar(path[|path| - 5 + k]);
      if HasEpubSuffix(path) {
        assert tail == ".epub";
        assert tail[0] == '.' && tail[1] == 'e' && tail[2] == 'p' && tail[3] == 'u' && tail[4] == 'b';
      }
    }
  }
}
