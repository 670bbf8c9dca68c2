/**
 * The small string vocabulary the mail code relies on: commons-lang's
 * `StringUtils.isBlank` / `join` / `defaultString`, and `String.trim`,
 * `indexOf`, `startsWith`, and the literal replace-all of `String.replace`
 * (and of `String.replaceAll` when the pattern holds no metacharacter).
 */
module JavaStrings {
  import opened Wrappers

  /**
   * `Character.isWhitespace` on the Basic Multilingual Plane: the Unicode
   * space, line and paragraph separators other than the no-break spaces,
   * plus U+0009..U+000D and U+001C..U+001F.
   */
  predicate IsWhitespace(c: char) {
    || ('\t' <= c <= '\r')
    || ('\U{1C}' <= c <= ' ')
    || c == '\U{1680}'
    || ('\U{2000}' <= c <= '\U{2006}')
    || ('\U{2008}' <= c <= '\U{200A}')
    || c == '\U{2028}' || c == '\U{2029}' || c == '\U{205F}' || c == '\U{3000}'
  }

  /** Every character is whitespace (the empty string included). */
  predicate Blank(s: string) {
    forall i :: 0 <= i < |s| ==> IsWhitespace(s[i])
  }

  /** `StringUtils.isBlank`: null, empty or whitespace only. */
  predicate IsBlank(s: Option<string>) {
    s.None? || Blank(s.value)
  }

  /** `StringUtils.isNotBlank`. */
  predicate IsNotBlank(s: Option<string>) {
    !IsBlank(s)
  }

  /** A string whose first character is not whitespace is not blank. */
  lemma NotBlankByFirst(s: string)
    requires s != [] && !IsWhitespace(s[0])
    ensures IsNotBlank(Some(s))
  {
  }

  /** The text Java produces when a possibly-null string is appended or concatenated. */
  function JavaString(s: Option<string>): string {
    match s
    case Some(v) => v
    case None => "null"
  }

  /** `s.startsWith(t)`. */
  predicate IsPrefix(t: string, s: string) {
    |t| <= |s| && s[..|t|] == t
  }

  /** `s.indexOf(t)`: the first position where `t` starts, or -1. */
  function IndexOf(s: string, t: string): (r: int)
    ensures -1 <= r && (r >= 0 ==> r + |t| <= |s|)
    ensures r >= 0 ==> IsPrefix(t, s[r..])
    ensures r >= 0 ==> forall j :: 0 <= j < r ==> !IsPrefix(t, s[j..])
    ensures r == -1 ==> forall j :: 0 <= j <= |s| ==> !IsPrefix(t, s[j..])
    decreases |s|
  {
    if IsPrefix(t, s) then 0
    else if s == [] then -1
    else
      var i := IndexOf(s[1..], t);
      assert forall j :: 1 <= j <= |s| ==> s[1..][j - 1..] == s[j..];
      if i < 0 then -1 else i + 1
  }

  /** `s.indexOf(t) >= 0`, which is also `s.contains(t)`. */
  predicate Contains(s: string, t: string) {
    IndexOf(s, t) >= 0
  }

  /** `Contains` at position `j`. */
  lemma ContainsAt(s: string, t: string, j: nat)
    requires j <= |s| && IsPrefix(t, s[j..])
    ensures Contains(s, t)
  {
  }

  /**
   * Literal replace-all, as `String.replace(CharSequence, CharSequence)`
   * does it: scan left to right, replace each occurrence of `t` by `r` and
   * resume after it, so occurrences never overlap.
   */
  function ReplaceAll(s: string, t: string, r: string): string
    requires t != []
    decreases |s|
  {
    if IsPrefix(t, s) then r + ReplaceAll(s[|t|..], t, r)
    else if s == [] then []
    else [s[0]] + ReplaceAll(s[1..], t, r)
  }

  /** A string without an occurrence of the target is left as it is. */
  lemma {:induction false} ReplaceAbsent(s: string, t: string, r: string)
    requires t != [] && !Contains(s, t)
    ensures ReplaceAll(s, t, r) == s
    decreases |s|
  {
    if s != [] {
      assert !IsPrefix(t, s[0..]);
      assert forall j :: 0 <= j <= |s| - 1 ==> s[1..][j..] == s[j + 1..];
      ReplaceAbsent(s[1..], t, r);
    }
  }

  /** Replacing a token by itself changes nothing. */
  lemma {:induction false} ReplaceSelf(s: string, t: string)
    requires t != []
    ensures ReplaceAll(s, t, t) == s
    decreases |s|
  {
    if IsPrefix(t, s) {
      ReplaceSelf(s[|t|..], t);
      assert s == t + s[|t|..];
    } else if s != [] {
      ReplaceSelf(s[1..], t);
      assert s == [s[0]] + s[1..];
    }
  }

  /** No occurrence of `t` starts before position `n` of `s`. */
  predicate NoMatchBefore(s: string, t: string, n: int) {
    forall i :: 0 <= i < n && i <= |s| ==> !IsPrefix(t, s[i..])
  }

  /**
   * When no occurrence of `t` starts among the first `n` characters, the
   * scan copies them and carries on with the rest.
   */
  lemma {:induction false} ReplaceSkips(s: string, n: nat, t: string, r: string)
    requires t != [] && n <= |s|
    requires NoMatchBefore(s, t, n)
    ensures ReplaceAll(s, t, r) == s[..n] + ReplaceAll(s[n..], t, r)
    decreases n
  {
    if n > 0 {
      var tail := s[1..];
      ReplaceSkipsFirst(s, t, r, n);
      ReplaceSkips(tail, n - 1, t, r);
      assert tail[n - 1..] == s[n..];
      calc {
        ReplaceAll(s, t, r);
      ==
        [s[0]] + ReplaceAll(tail, t, r);
      ==
        [s[0]] + (tail[..n - 1] + ReplaceAll(s[n..], t, r));
      ==
        ([s[0]] + tail[..n - 1]) + ReplaceAll(s[n..], t, r);
      ==  { assert s[..n] == [s[0]] + tail[..n - 1]; }
        s[..n] + ReplaceAll(s[n..], t, r);
      }
    }
  }

  /** Without a match at the front, the first character is copied and the rest scanned. */
  lemma ReplaceSkipsFirst(s: string, t: string, r: string, n: nat)
    requires t != [] && 0 < n <= |s|
    requires NoMatchBefore(s, t, n)
    ensures ReplaceAll(s, t, r) == [s[0]] + ReplaceAll(s[1..], t, r)
    ensures NoMatchBefore(s[1..], t, n - 1)
  {
    assert s[0..] == s;
    forall i | 0 <= i < n - 1 && i <= |s[1..]|
      ensures !IsPrefix(t, s[1..][i..])
    {
      assert s[1..][i..] == s[i + 1..];
    }
  }

  /** Prepending a character keeps an occurrence. */
  lemma ContainsCons(c: char, s: string, t: string)
    requires Contains(s, t)
    ensures Contains([c] + s, t)
  {
    var i := IndexOf(s, t);
    assert ([c] + s)[i + 1..] == s[i..];
    ContainsAt([c] + s, t, i + 1);
  }

  /** Replacing every `t` by `r` leaves an `r` wherever there was a `t`. */
  lemma {:induction false} ReplaceLeavesReplacement(s: string, t: string, r: string)
    requires t != [] && Contains(s, t)
    ensures Contains(ReplaceAll(s, t, r), r)
    decreases |s|
  {
    if IsPrefix(t, s) {
      var out := r + ReplaceAll(s[|t|..], t, r);
      assert out[0..][..|r|] == r;
      ContainsAt(out, r, 0);
    } else {
      assert s != [];
      var i := IndexOf(s, t);
      assert i > 0;
      assert s[1..][i - 1..] == s[i..];
      ContainsAt(s[1..], t, i - 1);
      ReplaceLeavesReplacement(s[1..], t, r);
      ContainsCons(s[0], ReplaceAll(s[1..], t, r), r);
    }
  }

  /** Containment is transitive. */
  lemma ContainsTransitive(s: string, q: string, p: string)
    requires Contains(s, q) && Contains(q, p)
    ensures Contains(s, p)
  {
    var i := IndexOf(s, q);
    var j := IndexOf(q, p);
    assert s[i..][..|q|] == q;
    assert forall k :: 0 <= k < |q| ==> s[i + k] == q[k] by {
      forall k | 0 <= k < |q| ensures s[i + k] == q[k] {
        assert s[i..][..|q|][k] == q[k];
      }
    }
    assert q[j..][..|p|] == p;
    assert s[i + j..][..|p|] == p by {
      forall k | 0 <= k < |p| ensures s[i + j..][..|p|][k] == p[k] {
        assert s[i + j + k] == q[j + k];
        assert q[j..][..|p|][k] == p[k];
      }
    }
    ContainsAt(s, p, i + j);
  }

  /** `x` and `y` differ at some position that both of them have. */
  predicate Clash(x: string, y: string)
    decreases |x|
  {
    x != [] && y != [] && (x[0] != y[0] || Clash(x[1..], y[1..]))
  }

  /** A string that clashes with `y` is never the start of `y + rest`. */
  lemma {:induction false} ClashNotPrefix(x: string, y: string, rest: string)
    requires Clash(x, y)
    ensures !IsPrefix(x, y + rest)
    decreases |x|
  {
    if x[0] == y[0] {
      ClashNotPrefix(x[1..], y[1..], rest);
      assert (y + rest)[1..] == y[1..] + rest;
    }
  }

  /**
   * If the replaced text starts with `w`, and no tail of `w` can be
   * confused with the replacement `r`, then the original text started with
   * `w` and no occurrence of `t` began inside that prefix.
   */
  lemma {:induction false} LiteralPrefix(s: string, w: string, t: string, r: string)
    requires t != []
    requires forall j :: 0 <= j < |w| ==> Clash(w[j..], r)
    ensures IsPrefix(w, ReplaceAll(s, t, r)) ==> IsPrefix(w, s) && NoMatchBefore(s, t, |w|)
    decreases |w|
  {
    if w != [] && IsPrefix(w, ReplaceAll(s, t, r)) {
      assert w[0..] == w;
      if IsPrefix(t, s) {
        ClashNotPrefix(w, r, ReplaceAll(s[|t|..], t, r));
        assert false;
      }
      assert s != [];
      var out := ReplaceAll(s[1..], t, r);
      assert ReplaceAll(s, t, r) == [s[0]] + out;
      assert IsPrefix(w[1..], out);
      forall j | 0 <= j < |w[1..]|
        ensures Clash(w[1..][j..], r)
      {
        assert w[1..][j..] == w[j + 1..];
      }
      LiteralPrefix(s[1..], w[1..], t, r);
      forall j | 0 <= j < |w| && j <= |s|
        ensures !IsPrefix(t, s[j..])
      {
        if j > 0 {
          assert s[1..][j - 1..] == s[j..];
        }
      }
    }
  }

  /** How many leading characters up to U+0020 `s` has. */
  function TrimmedLead(s: string): (n: nat)
    ensures n <= |s|
    decreases |s|
  {
    if s != [] && s[0] <= ' ' then 1 + TrimmedLead(s[1..]) else 0
  }

  /** The leading run ends at the first character above U+0020. */
  lemma {:induction false} TrimmedLeadFacts(s: string)
    ensures forall k :: 0 <= k < TrimmedLead(s) ==> s[k] <= ' '
    ensures TrimmedLead(s) == |s| || s[TrimmedLead(s)] > ' '
    decreases |s|
  {
    if s != [] && s[0] <= ' ' {
      TrimmedLeadFacts(s[1..]);
      assert forall k :: 1 <= k < |s| ==> s[1..][k - 1] == s[k];
    }
  }

  /** Where the trailing run of characters up to U+0020 starts. */
  function TrimmedEnd(s: string): (m: nat)
    ensures m <= |s|
    decreases |s|
  {
    if s != [] && s[|s| - 1] <= ' ' then TrimmedEnd(s[..|s| - 1]) else |s|
  }

  /** The trailing run starts after the last character above U+0020. */
  lemma {:induction false} TrimmedEndFacts(s: string)
    ensures forall k :: TrimmedEnd(s) <= k < |s| ==> s[k] <= ' '
    ensures TrimmedEnd(s) == 0 || s[TrimmedEnd(s) - 1] > ' '
    decreases |s|
  {
    if s != [] && s[|s| - 1] <= ' ' {
      TrimmedEndFacts(s[..|s| - 1]);
    }
  }

  /**
   * `String.trim`: the slice of `s` left once the characters up to U+0020
   * at both ends are gone.
   */
  function Trim(s: string): (r: string)
    ensures |r| <= |s|
  {
    var i := TrimmedLead(s);
    var j := TrimmedEnd(s);
    if i < j then s[i..j] else []
  }

  /**
   * What `trim` leaves: a slice of `s` starting after the leading run, with
   * only characters up to U+0020 after it, and no such character at its ends.
   */
  lemma TrimFacts(s: string)
    ensures TrimmedLead(s) + |Trim(s)| <= |s|
    ensures Trim(s) == s[TrimmedLead(s)..TrimmedLead(s) + |Trim(s)|]
    ensures forall k :: 0 <= k < TrimmedLead(s) ==> s[k] <= ' '
    ensures forall k :: TrimmedLead(s) + |Trim(s)| <= k < |s| ==> s[k] <= ' '
    ensures Trim(s) == [] || (Trim(s)[0] > ' ' && Trim(s)[|Trim(s)| - 1] > ' ')
  {
    TrimmedLeadFacts(s);
    TrimmedEndFacts(s);
  }

  /** `StringUtils.join(values, sep)`. */
  function Join(values: seq<string>, sep: string): (r: string)
    ensures values == [] ==> r == []
    ensures |values| == 1 ==> r == values[0]
  {
    if values == [] then []
    else if |values| == 1 then values[0]
    else values[0] + sep + Join(values[1..], sep)
  }

  /** Joining one more value appends the separator and that value. */
  lemma {:induction false} JoinSnoc(values: seq<string>, v: string, sep: string)
    requires values != []
    ensures Join(values + [v], sep) == Join(values, sep) + sep + v
    decreases |values|
  {
    if |values| == 1 {
      assert values + [v] == [values[0], v];
      assert [values[0], v][1..] == [v];
    } else {
      assert (values + [v])[1..] == values[1..] + [v];
      JoinSnoc(values[1..], v, sep);
    }
  }

  /** Lower-cases ASCII letters only. */
  function LowerAscii(s: string): string
  {
    seq(|s|, i requires 0 <= i < |s| => if 'A' <= s[i] <= 'Z' then (s[i] as int + 32) as char else s[i])
  }

  /** The part of `s` before the first `c`, or all of `s`. */
  function UpTo(s: string, c: char): string
    decreases |s|
  {
    if s == [] || s[0] == c then [] else [s[0]] + UpTo(s[1..], c)
  }

  /** `UpTo` gives the longest prefix without `c`; the next character, if any, is `c`. */
  lemma {:induction false} UpToFacts(s: string, c: char)
    ensures IsPrefix(UpTo(s, c), s) && c !in UpTo(s, c)
    ensures |UpTo(s, c)| < |s| ==> s[|UpTo(s, c)|] == c
    decreases |s|
  {
    if s != [] && s[0] != c {
      UpToFacts(s[1..], c);
    }
  }
}
