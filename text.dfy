/** String.prototype.trim as app.js uses it on the title and author fields before the
    submit guard looks at them. */
module Text {

  /** The code points ECMAScript trim removes: the WhiteSpace and LineTerminator
      productions (sections 12.2 and 12.3 of the ECMAScript language specification),
      where WhiteSpace includes every code point of Unicode category Zs. */
  predicate IsJsSpace(c: char) {
    || c == '\t' || c == '\n' || c == '\U{000B}' || c == '\U{000C}' || c == '\r'
    || c == ' ' || c == '\U{00A0}' || c == '\U{1680}'
    || ('\U{2000}' <= c <= '\U{200A}')
    || c == '\U{2028}' || c == '\U{2029}' || c == '\U{202F}' || c == '\U{205F}'
    || c == '\U{3000}' || c == '\U{FEFF}'
  }

  /** Every character of s is one trim removes. */
  predicate AllSpace(s: string) {
    forall i :: 0 <= i < |s| ==> IsJsSpace(s[i])
  }

  /** Drops the leading whitespace: the result is the suffix of s that starts at its
      first non-space character. */
  function TrimStart(s: string): (r: string)
    ensures |r| <= |s| && r == s[|s| - |r|..]
    ensures AllSpace(s[..|s| - |r|])
    ensures r != [] ==> !IsJsSpace(r[0])
  {
    if s != [] && IsJsSpace(s[0]) then TrimStart(s[1..]) else s
  }

  /** Drops the trailing whitespace: the result is the prefix of s that ends at its
      last non-space character. */
  function TrimEnd(s: string): (r: string)
    ensures |r| <= |s| && r == s[..|r|]
    ensures AllSpace(s[|r|..])
    ensures r != [] ==> !IsJsSpace(r[|r| - 1])
  {
    if s != [] && IsJsSpace(s[|s| - 1]) then TrimEnd(s[..|s| - 1]) else s
  }

  /** r is the piece of s that starts at index i. */
  predicate SliceAt(r: string, s: string, i: nat) {
    i + |r| <= |s| && r == s[i..i + |r|]
  }

  /** `s.trim()`: a contiguous piece of s that neither starts nor ends with
      whitespace. */
  function Trim(s: string): (r: string)
    ensures exists i :: SliceAt(r, s, i)
    ensures r != [] ==> !IsJsSpace(r[0]) && !IsJsSpace(r[|r| - 1])
  {
    var t := TrimStart(s);
    var u := TrimEnd(t);
    assert SliceAt(u, s, |s| - |t|);
    assert u != [] ==> u[0] == t[0];
    u
  }

  /** TrimStart stops at the first non-space character. */
  lemma {:induction false} TrimStartAt(s: string, i: nat)
    requires i < |s| && AllSpace(s[..i]) && !IsJsSpace(s[i])
    ensures TrimStart(s) == s[i..]
  {
    if i > 0 {
      assert s[..i][0] == s[0];
      assert s[1..][..i - 1] == s[1..i] && s[1..i] == s[..i][1..];
      TrimStartAt(s[1..], i - 1);
    }
  }

  /** Trim is characterised independently of its definition: for any split of s into
      a whitespace prefix, a middle that neither starts nor ends with whitespace, and a
      whitespace suffix, Trim returns that middle; a string of spaces trims to empty. */
  lemma TrimIsMiddle(s: string, i: nat, j: nat)
    requires i <= j <= |s|
    requires AllSpace(s[..i]) && AllSpace(s[j..])
    requires i < j ==> !IsJsSpace(s[i]) && !IsJsSpace(s[j - 1])
    requires i == j ==> AllSpace(s)
    ensures Trim(s) == s[i..j]
  {
    if i < j {
      TrimStartAt(s, i);
      TrimEndMiddle(s, i, j);
    }
  }

  /** TrimEnd of a suffix s[i..] stops at the last non-space character j - 1 of s. */
  lemma TrimEndMiddle(s: string, i: nat, j: nat)
    requires i < j <= |s|
    requires AllSpace(s[j..]) && !IsJsSpace(s[j - 1])
    ensures TrimEnd(s[i..]) == s[i..j]
  {
  }

  /** The guard's `!bookTitle`: the trimmed text is empty exactly when every character
      of the input is whitespace. */
  lemma TrimEmptyIff(s: string)
    ensures Trim(s) == [] <==> AllSpace(s)
  {
  }

  /** Trimming twice is trimming once. */
  lemma TrimIdempotent(s: string)
    ensures Trim(Trim(s)) == Trim(s)
  {
  }
}
