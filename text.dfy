/** The string operations the scraper relies on: Rust's `str::trim`, and the
    concatenation that `collect::<String>()` performs on a sequence of text
    fragments. */
module Text {

  /** Rust's `char::is_whitespace`: the characters with the Unicode
      White_Space property. */
  predicate IsWhitespace(c: char) {
    ('\t' <= c <= '\r') || c == ' ' || c == '\U{0085}' || c == '\U{00A0}'
    || c == '\U{1680}' || ('\U{2000}' <= c <= '\U{200A}')
    || c == '\U{2028}' || c == '\U{2029}' || c == '\U{202F}'
    || c == '\U{205F}' || c == '\U{3000}'
  }

  predicate AllWhitespace(s: string) {
    forall k :: 0 <= k < |s| ==> IsWhitespace(s[k])
  }

  /** `str::trim_start`: drops the leading whitespace. */
  function TrimStart(s: string): (r: string)
    ensures |r| <= |s| && r == s[|s| - |r|..]
    ensures AllWhitespace(s[..|s| - |r|])
    ensures r != [] ==> !IsWhitespace(r[0])
  {
    if s != [] && IsWhitespace(s[0]) then
      var r := TrimStart(s[1..]);
      assert s[1..][..|s[1..]| - |r|] == s[1..|s| - |r|];
      r
    else s
  }

  /** `str::trim_end`: drops the trailing whitespace. */
  function TrimEnd(s: string): (r: string)
    ensures |r| <= |s| && r == s[..|r|]
    ensures AllWhitespace(s[|r|..])
    ensures r != [] ==> !IsWhitespace(r[|r| - 1])
  {
    if s != [] && IsWhitespace(s[|s| - 1]) then
      var r := TrimEnd(s[..|s| - 1]);
      assert s[|r|..] == s[..|s| - 1][|r|..] + [s[|s| - 1]];
      r
    else s
  }

  /** `str::trim`: a contiguous piece of `s`, obtained by removing only
      whitespace at both ends, that neither starts nor ends with whitespace. */
  function Trim(s: string): (r: string)
    ensures |r| <= |s|
    ensures exists i, j :: 0 <= i <= j <= |s| && r == s[i..j] && AllWhitespace(s[..i]) && AllWhitespace(s[j..])
    ensures r != [] ==> !IsWhitespace(r[0]) && !IsWhitespace(r[|r| - 1])
  {
    var t := TrimStart(s);
    var r := TrimEnd(t);
    var i, j := |s| - |t|, |s| - |t| + |r|;
    assert t == s[i..];
    assert r == t[..|r|] == s[i..j];
    assert s[j..] == t[|r|..];
    r
  }

  /** The trimmed string is empty exactly when the input is all whitespace. */
  lemma TrimEmptyIff(s: string)
    ensures Trim(s) == [] <==> AllWhitespace(s)
  {
    var t := TrimStart(s);
    if t == [] {
      assert s[..|s|] == s;
    } else {
      // the first kept character is not whitespace and survives trim_end
      assert t[0] == s[|s| - |t|];
      assert !AllWhitespace(t[0..]) by { assert t[0..][0] == t[0]; }
    }
  }

  /** Trimming twice changes nothing more. */
  lemma TrimIdempotent(s: string)
    ensures Trim(Trim(s)) == Trim(s)
  {
    var r := Trim(s);
    assert TrimStart(r) == r;
    assert TrimEnd(r) == r;
  }

  /** `collect::<String>()` over an iterator of strings. */
  function Concat(fragments: seq<string>): (r: string)
    ensures r == [] <==> forall k :: 0 <= k < |fragments| ==> fragments[k] == []
  {
    if fragments == [] then [] else fragments[0] + Concat(fragments[1..])
  }

  /** `text().map(|s| s.trim()).collect::<String>()`: every fragment trimmed
      on its own, then joined. */
  function JoinTrimmed(fragments: seq<string>): (r: string)
    ensures |r| <= |Concat(fragments)|
  {
    if fragments == [] then []
    else Trim(fragments[0]) + JoinTrimmed(fragments[1..])
  }

  /** Every fragment is whitespace only. */
  predicate AllBlank(fragments: seq<string>) {
    forall k :: 0 <= k < |fragments| ==> AllWhitespace(fragments[k])
  }

  lemma AllBlankSplit(fragments: seq<string>)
    requires fragments != []
    ensures AllBlank(fragments) <==> AllWhitespace(fragments[0]) && AllBlank(fragments[1..])
  {
    if AllWhitespace(fragments[0]) && AllBlank(fragments[1..]) {
      forall k | 0 <= k < |fragments| ensures AllWhitespace(fragments[k]) {
        if k > 0 { assert fragments[k] == fragments[1..][k - 1]; }
      }
    }
  }

  /** A joined, trimmed text is empty exactly when every fragment is blank. */
  lemma {:induction false} JoinTrimmedEmptyIff(fragments: seq<string>)
    ensures JoinTrimmed(fragments) == [] <==> AllBlank(fragments)
  {
    if fragments != [] {
      TrimEmptyIff(fragments[0]);
      JoinTrimmedEmptyIff(fragments[1..]);
      AllBlankSplit(fragments);
    }
  }

}
