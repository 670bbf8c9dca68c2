/**
 * `MailUtil`: replacing characters a file system refuses, and decoding a
 * header value in which encoded words sit next to each other.
 * `IS_WINDOWS` (read from the `os.name` property) is a parameter here.
 */
module Util {
  import opened Wrappers
  import opened JavaStrings

  /**
   * `isInvalidFileNameChar`: on Windows the control characters U+0000..U+001F
   * and `" * / : < > ? \ |`; elsewhere only NUL and `/`.
   */
  predicate IsInvalidFileNameChar(c: char, isWindows: bool) {
    if isWindows then
      c <= '\U{1F}' || c == '"' || c == '*' || c == '/' || c == ':' ||
      c == '<' || c == '>' || c == '?' || c == '\\' || c == '|'
    else
      c == '\0' || c == '/'
  }

  /** Every character rejected outside Windows is rejected on Windows too. */
  lemma InvalidCharsNested(c: char)
    ensures IsInvalidFileNameChar(c, false) ==> IsInvalidFileNameChar(c, true)
    ensures IsInvalidFileNameChar(c, true) ==> c <= '\U{7F}'
  {
  }

  /** No character of `s` is refused. */
  predicate ValidChars(s: string, isWindows: bool) {
    forall i :: 0 <= i < |s| ==> !IsInvalidFileNameChar(s[i], isWindows)
  }

  /** What the loop appends for one character. */
  function Piece(c: char, replacement: string, isWindows: bool): string {
    if IsInvalidFileNameChar(c, isWindows) then replacement else [c]
  }

  /** The characters of `s` with each refused one replaced, before trimming. */
  function Sanitized(s: string, replacement: string, isWindows: bool): string
    decreases |s|
  {
    if s == [] then []
    else Sanitized(s[..|s| - 1], replacement, isWindows) + Piece(s[|s| - 1], replacement, isWindows)
  }

  /**
   * The file name `toValidFileName` returns: the default for a blank or
   * null name, else the trimmed replacement text, unless that is blank.
   * A null replacement is appended as the text "null", as
   * `StringBuilder.append` does.
   */
  function ValidFileName(src: Option<string>, replaceStr: Option<string>,
                         defaultFileName: Option<string>, isWindows: bool): Option<string>
  {
    if IsBlank(src) then defaultFileName
    else
      var dest := Trim(Sanitized(src.value, JavaString(replaceStr), isWindows));
      if Blank(dest) then defaultFileName else Some(dest)
  }

  /** `toValidFileName(srcFileName, replaceStr, defaultFileName)`. */
  method ToValidFileName(srcFileName: Option<string>, replaceStr: Option<string>,
                         defaultFileName: Option<string>, isWindows: bool)
    returns (r: Option<string>)
    ensures r == ValidFileName(srcFileName, replaceStr, defaultFileName, isWindows)
  {
    if IsBlank(srcFileName) {
      return defaultFileName;
    }
    var src := srcFileName.value;
    var fileName: string := [];
    for i := 0 to |src|
      invariant fileName == Sanitized(src[..i], JavaString(replaceStr), isWindows)
    {
      assert src[..i + 1][..i] == src[..i];
      if IsInvalidFileNameChar(src[i], isWindows) {
        fileName := fileName + JavaString(replaceStr);
      } else {
        fileName := fileName + [src[i]];
      }
    }
    assert src[..|src|] == src;
    var destFileName := Trim(fileName);
    if Blank(destFileName) {
      return defaultFileName;
    }
    return Some(destFileName);
  }

  /**
   * With a one-character replacement the name keeps its length and changes
   * exactly at the refused characters.
   */
  lemma {:induction false} SanitizedPointwise(s: string, replacement: string, isWindows: bool)
    requires |replacement| == 1
    ensures |Sanitized(s, replacement, isWindows)| == |s|
    ensures forall i :: 0 <= i < |s| ==>
      Sanitized(s, replacement, isWindows)[i] ==
        (if IsInvalidFileNameChar(s[i], isWindows) then replacement[0] else s[i])
    decreases |s|
  {
    if s != [] {
      var init := s[..|s| - 1];
      SanitizedPointwise(init, replacement, isWindows);
      assert forall i :: 0 <= i < |init| ==> init[i] == s[i];
    }
  }

  /** A replacement free of refused characters leaves none behind. */
  lemma {:induction false} SanitizedValid(s: string, replacement: string, isWindows: bool)
    requires ValidChars(replacement, isWindows)
    ensures ValidChars(Sanitized(s, replacement, isWindows), isWindows)
    decreases |s|
  {
    if s != [] {
      SanitizedValid(s[..|s| - 1], replacement, isWindows);
    }
  }

  /**
   * With a valid replacement and a valid default, the name produced
   * contains no refused character, and is not blank unless the default is.
   */
  lemma ValidFileNameIsValid(src: Option<string>, replaceStr: Option<string>,
                             defaultFileName: Option<string>, isWindows: bool)
    requires ValidChars(JavaString(replaceStr), isWindows)
    requires defaultFileName.Some? ==> ValidChars(defaultFileName.value, isWindows)
    ensures var r := ValidFileName(src, replaceStr, defaultFileName, isWindows);
      r.Some? ==> ValidChars(r.value, isWindows)
    ensures var r := ValidFileName(src, replaceStr, defaultFileName, isWindows);
      r != defaultFileName ==> r.Some? && !Blank(r.value)
  {
    if !IsBlank(src) {
      var s := Sanitized(src.value, JavaString(replaceStr), isWindows);
      SanitizedValid(src.value, JavaString(replaceStr), isWindows);
      TrimKeepsValid(s, isWindows);
    }
  }

  lemma TrimKeepsValid(s: string, isWindows: bool)
    requires ValidChars(s, isWindows)
    ensures ValidChars(Trim(s), isWindows)
  {
    var t := Trim(s);
    var n := TrimmedLead(s);
    forall i | 0 <= i < |t|
      ensures !IsInvalidFileNameChar(t[i], isWindows)
    {
      assert t[i] == s[n + i];
    }
  }

  /** A name already made of valid characters, trimmed and not blank, is returned as it is. */
  lemma ValidFileNameKeepsValid(src: string, replaceStr: Option<string>,
                                defaultFileName: Option<string>, isWindows: bool)
    requires ValidChars(src, isWindows) && !Blank(src) && Trim(src) == src
    ensures ValidFileName(Some(src), replaceStr, defaultFileName, isWindows) == Some(src)
  {
    SanitizedIdentity(src, JavaString(replaceStr), isWindows);
  }

  lemma {:induction false} SanitizedIdentity(s: string, replacement: string, isWindows: bool)
    requires ValidChars(s, isWindows)
    ensures Sanitized(s, replacement, isWindows) == s
    decreases |s|
  {
    if s != [] {
      SanitizedIdentity(s[..|s| - 1], replacement, isWindows);
      assert s == s[..|s| - 1] + [s[|s| - 1]];
    }
  }

  /** Adjacent encoded words are split apart before decoding. */
  function SeparateWords(s: string): string {
    ReplaceAll(s, "?==?", "?= =?")
  }

  /**
   * `decodeText(text)`: "" for null; text without `=?` is decoded as it is;
   * otherwise the text before the first `=?` is kept verbatim and only the
   * rest, with `?==?` separated into `?= =?`, goes to the decoder.
   */
  function DecodeText(text: Option<string>, decode: string -> string): (r: string)
    ensures text.None? ==> r == ""
    ensures text.Some? && !Contains(text.value, "=?") ==> r == decode(text.value)
    ensures text.Some? && Contains(text.value, "=?") ==>
      var i := IndexOf(text.value, "=?");
      r == text.value[..i] + decode(SeparateWords(text.value[i..]))
  {
    if text.None? then ""
    else
      var s := text.value;
      var start := IndexOf(s, "=?");
      if start < 0 then decode(s)
      else if start == 0 then
        assert s[..0] == [] && s[0..] == s;
        decode(SeparateWords(s))
      else s[..start] + decode(SeparateWords(s[start..]))
  }

  /** Text without `?==?` reaches the decoder unchanged. */
  lemma SeparateWordsAbsent(s: string)
    requires !Contains(s, "?==?")
    ensures SeparateWords(s) == s
  {
    ReplaceAbsent(s, "?==?", "?= =?");
  }

  /**
   * Two encoded words written back to back, `x?==?y` with `x` ending in the
   * first word's text and `y` starting with the second word's charset, reach
   * the decoder as `x?= =?y`, with whatever came before the first `=?` kept
   * verbatim, when that joint is the first `?==?` and there is none after it.
   */
  lemma DecodeAdjacentWords(prefix: string, x: string, y: string, decode: string -> string)
    requires IndexOf(prefix + x + "?==?" + y, "=?") == |prefix|
    requires IndexOf(x + "?==?" + y, "?==?") == |x|
    requires !Contains(y, "?==?")
    ensures DecodeText(Some(prefix + x + "?==?" + y), decode) == prefix + decode(x + "?= =?" + y)
  {
    var s := prefix + x + "?==?" + y;
    assert s[..|prefix|] == prefix && s[|prefix|..] == x + "?==?" + y;
    SeparateJoint(x, y);
  }

  /** `a ?==? b` where the first `?==?` is the joint becomes `a ?= =? b`. */
  lemma SeparateJoint(a: string, b: string)
    requires IndexOf(a + "?==?" + b, "?==?") == |a|
    requires !Contains(b, "?==?")
    ensures SeparateWords(a + "?==?" + b) == a + "?= =?" + b
  {
    var w := a + "?==?" + b;
    var n := |a|;
    assert NoMatchBefore(w, "?==?", n);
    ReplaceSkips(w, n, "?==?", "?= =?");
    var rest := w[n..];
    assert rest == "?==?" + b;
    assert IsPrefix("?==?", rest) && rest[4..] == b;
    ReplaceAbsent(b, "?==?", "?= =?");
    calc {
      ReplaceAll(w, "?==?", "?= =?");
    ==
      w[..n] + ReplaceAll(rest, "?==?", "?= =?");
    ==
      w[..n] + ("?= =?" + ReplaceAll(b, "?==?", "?= =?"));
    ==  { assert w[..n] == a; }
      a + ("?= =?" + b);
    }
  }
}
