/** String helpers the toolkit relies on through Python's `str` type:
    code-point lexicographic order, ASCII case mapping, decimal digits,
    whitespace tokenising (`str.split()`), prefix removal and
    `split(sep)[0]`. */
module Strings {

  /** Concatenation of a list of strings, as `"".join(parts)`. */
  function Concat(parts: seq<string>): (r: string)
    ensures |parts| == 0 ==> r == ""
  {
    if |parts| == 0 then "" else parts[0] + Concat(parts[1..])
  }

  lemma {:induction false} ConcatAppend(a: seq<string>, b: seq<string>)
    ensures Concat(a + b) == Concat(a) + Concat(b)
  {
    if |a| == 0 {
      assert a + b == b;
    } else {
      assert (a + b)[1..] == a[1..] + b;
      ConcatAppend(a[1..], b);
    }
  }

  lemma ConcatOne(s: string)
    ensures Concat([s]) == s
  {
    assert [s][1..] == [];
    assert s + "" == s;
  }

  /** The join is empty exactly when every part is. */
  lemma {:induction false} ConcatEmpty(parts: seq<string>)
    ensures Concat(parts) == "" <==> forall i :: 0 <= i < |parts| ==> parts[i] == ""
  {
    if |parts| > 0 {
      ConcatEmpty(parts[1..]);
      assert forall i :: 1 <= i < |parts| ==> parts[i] == parts[1..][i - 1];
    }
  }

  // ---------------------------------------------------------------------
  // Lexicographic order on code points (Python's `<=` on `str`)
  // ---------------------------------------------------------------------

  predicate LexLe(a: string, b: string) {
    if |a| == 0 then true
    else if |b| == 0 then false
    else if a[0] != b[0] then a[0] < b[0]
    else LexLe(a[1..], b[1..])
  }

  lemma {:induction false} LexLeTotal(a: string, b: string)
    ensures LexLe(a, b) || LexLe(b, a)
  {
    if |a| == 0 || |b| == 0 {
    } else if a[0] != b[0] {
    } else {
      LexLeTotal(a[1..], b[1..]);
    }
  }

  lemma {:induction false} LexLeTransitive(a: string, b: string, c: string)
    requires LexLe(a, b) && LexLe(b, c)
    ensures LexLe(a, c)
  {
    if |a| == 0 || |b| == 0 || |c| == 0 {
    } else if a[0] == b[0] && b[0] == c[0] {
      LexLeTransitive(a[1..], b[1..], c[1..]);
    }
  }

  lemma {:induction false} LexLeAntisymmetric(a: string, b: string)
    requires LexLe(a, b) && LexLe(b, a)
    ensures a == b
  {
    if |a| == 0 || |b| == 0 {
    } else {
      LexLeAntisymmetric(a[1..], b[1..]);
      assert a == [a[0]] + a[1..];
      assert b == [b[0]] + b[1..];
    }
  }

  // ---------------------------------------------------------------------
  // ASCII case mapping (`str.lower()` / `str.upper()` restricted to ASCII)
  // ---------------------------------------------------------------------

  function LowerChar(c: char): char {
    if 'A' <= c <= 'Z' then (c as int + 32) as char else c
  }

  function UpperChar(c: char): char {
    if 'a' <= c <= 'z' then (c as int - 32) as char else c
  }

  function Lower(s: string): (r: string)
    ensures |r| == |s|
    ensures forall i :: 0 <= i < |s| ==> r[i] == LowerChar(s[i])
  {
    seq(|s|, i requires 0 <= i < |s| => LowerChar(s[i]))
  }

  function Upper(s: string): (r: string)
    ensures |r| == |s|
    ensures forall i :: 0 <= i < |s| ==> r[i] == UpperChar(s[i])
  {
    seq(|s|, i requires 0 <= i < |s| => UpperChar(s[i]))
  }

  // ---------------------------------------------------------------------
  // Decimal digits
  // ---------------------------------------------------------------------

  predicate IsDigit(c: char) {
    '0' <= c <= '9'
  }

  predicate IsDigits(s: string) {
    forall i :: 0 <= i < |s| ==> IsDigit(s[i])
  }

  function DigitChar(d: nat): (c: char)
    requires d < 10
    ensures IsDigit(c)
  {
    ('0' as int + d) as char
  }

  /** The value of a string of decimal digits, most significant first. */
  function DecimalValue(s: string): nat
    requires IsDigits(s)
  {
    if |s| == 0 then 0
    else 10 * DecimalValue(s[..|s| - 1]) + (s[|s| - 1] as int - '0' as int)
  }

  /** The decimal spelling of a natural number, as `str(n)`. */
  function NatToDecimal(n: nat): (s: string)
    ensures |s| > 0 && IsDigits(s)
    ensures s[0] == '0' ==> n == 0 && s == "0"
  {
    if n < 10 then [DigitChar(n)] else NatToDecimal(n / 10) + [DigitChar(n % 10)]
  }

  /** `str(i)` for a Python `int`. */
  function IntToDecimal(i: int): (s: string)
    ensures |s| > 0
    ensures s[0] == '-' <==> i < 0
  {
    if i < 0 then "-" + NatToDecimal(-i) else NatToDecimal(i)
  }

  lemma {:induction false} DecimalRoundTrip(n: nat)
    ensures DecimalValue(NatToDecimal(n)) == n
  {
    var s := NatToDecimal(n);
    if n >= 10 {
      DecimalRoundTrip(n / 10);
      assert s[..|s| - 1] == NatToDecimal(n / 10);
    }
  }

  // ---------------------------------------------------------------------
  // Whitespace tokenising (`str.split()` with no separator)
  // ---------------------------------------------------------------------

  /** Python's white space (`str.isspace`), the characters `str.split()`
      with no separator splits on: the ASCII controls tab to carriage
      return and the four information separators, space, next line,
      no-break space, the ogham space mark, the en quad to hair space
      range, the line and paragraph separators, the narrow no-break
      space, the medium mathematical space and the ideographic space. */
  predicate IsSpace(c: char) {
    || '\t' <= c <= '\r'
    || '\U{001C}' <= c <= '\U{001F}'
    || c == ' ' || c == '\U{0085}' || c == '\U{00A0}' || c == '\U{1680}'
    || '\U{2000}' <= c <= '\U{200A}'
    || c == '\U{2028}' || c == '\U{2029}' || c == '\U{202F}' || c == '\U{205F}' || c == '\U{3000}'
  }

  predicate NoSpace(s: string) {
    forall i :: 0 <= i < |s| ==> !IsSpace(s[i])
  }

  /** Length of the run of non-space characters at the start of `s`. */
  function WordLength(s: string): (n: nat)
    ensures n <= |s|
    ensures NoSpace(s[..n])
    ensures n == |s| || IsSpace(s[n])
  {
    if |s| == 0 || IsSpace(s[0]) then 0
    else
      var m := WordLength(s[1..]);
      assert s[..m + 1] == [s[0]] + s[1..][..m];
      m + 1
  }

  /** The characters of `s` that are not white space, in order. */
  function RemoveSpaces(s: string): string {
    if |s| == 0 then ""
    else (if IsSpace(s[0]) then "" else [s[0]]) + RemoveSpaces(s[1..])
  }

  /** The maximal runs of non-space characters of `s`, in order. */
  function Tokens(s: string): (r: seq<string>)
    ensures forall i :: 0 <= i < |r| ==> |r[i]| > 0 && NoSpace(r[i])
    decreases |s|
  {
    if |s| == 0 then []
    else if IsSpace(s[0]) then Tokens(s[1..])
    else
      var n := WordLength(s);
      [s[..n]] + Tokens(s[n..])
  }

  lemma {:induction false} RemoveSpacesAppend(a: string, b: string)
    ensures RemoveSpaces(a + b) == RemoveSpaces(a) + RemoveSpaces(b)
  {
    if |a| == 0 {
      assert a + b == b;
    } else {
      assert (a + b)[1..] == a[1..] + b;
      RemoveSpacesAppend(a[1..], b);
    }
  }

  lemma {:induction false} RemoveSpacesOfWord(w: string)
    requires NoSpace(w)
    ensures RemoveSpaces(w) == w
  {
    if |w| > 0 {
      RemoveSpacesOfWord(w[1..]);
      assert w == [w[0]] + w[1..];
    }
  }

  /** Tokenising loses exactly the white space: the tokens joined back
      together are the input with its white space removed. */
  lemma {:induction false} TokensKeepText(s: string)
    ensures Concat(Tokens(s)) == RemoveSpaces(s)
    decreases |s|
  {
    if |s| == 0 {
    } else if IsSpace(s[0]) {
      TokensKeepText(s[1..]);
    } else {
      var n := WordLength(s);
      TokensKeepText(s[n..]);
      assert s == s[..n] + s[n..];
      RemoveSpacesAppend(s[..n], s[n..]);
      RemoveSpacesOfWord(s[..n]);
    }
  }

  /** A no-break space separates tokens just as a space does. */
  lemma TokensSplitOnNoBreakSpace(s: string)
    requires s == "0.0\U{00A0}0.5 0.5"
    ensures Tokens(s) == ["0.0", "0.5", "0.5"]
  {
    var u, v := "0.0", "0.5";
    assert NoSpace(u) && NoSpace(v);
    assert s == u + (['\U{00A0}'] + (v + ([' '] + v)));
    TokensOfThreeWords(u, '\U{00A0}', v, ' ', v);
  }

  /** Three words separated by single white-space characters are three tokens. */
  lemma TokensOfThreeWords(u: string, c: char, v: string, d: char, w: string)
    requires |u| > 0 && NoSpace(u) && |v| > 0 && NoSpace(v) && |w| > 0 && NoSpace(w)
    requires IsSpace(c) && IsSpace(d)
    ensures Tokens(u + ([c] + (v + ([d] + w)))) == [u, v, w]
  {
    TokensOfWord(w, "");
    assert w + "" == w;
    TokensOfSpace(d, w);
    TokensOfWord(v, [d] + w);
    TokensOfSpace(c, v + ([d] + w));
    TokensOfWord(u, [c] + (v + ([d] + w)));
  }

  lemma {:induction false} WordLengthOfWord(w: string, rest: string)
    requires NoSpace(w)
    requires |rest| == 0 || IsSpace(rest[0])
    ensures WordLength(w + rest) == |w|
    decreases |w|
  {
    if |w| > 0 {
      assert (w + rest)[1..] == w[1..] + rest;
      WordLengthOfWord(w[1..], rest);
    }
  }

  /** A word followed by the end or by white space is one token. */
  lemma TokensOfWord(w: string, rest: string)
    requires |w| > 0 && NoSpace(w)
    requires |rest| == 0 || IsSpace(rest[0])
    ensures Tokens(w + rest) == [w] + Tokens(rest)
  {
    var s := w + rest;
    WordLengthOfWord(w, rest);
    assert s[..|w|] == w && s[|w|..] == rest;
  }

  lemma TokensOfSpace(c: char, rest: string)
    requires IsSpace(c)
    ensures Tokens([c] + rest) == Tokens(rest)
  {
    assert ([c] + rest)[1..] == rest;
  }

  // ---------------------------------------------------------------------
  // Prefixes and separators
  // ---------------------------------------------------------------------

  predicate StartsWith(s: string, p: string) {
    |p| <= |s| && s[..|p|] == p
  }

  /** `s.replace(p, "", 1)`: remove the first occurrence of `p`, if any. */
  function RemoveFirst(s: string, p: string): (r: string)
    ensures StartsWith(s, p) ==> r == s[|p|..]
    ensures |r| == |s| || |r| + |p| == |s|
  {
    if StartsWith(s, p) then s[|p|..]
    else if |s| == 0 then s
    else [s[0]] + RemoveFirst(s[1..], p)
  }

  /** `s.split(c)[0]`: the text before the first `c`, or all of `s`. */
  function BeforeFirst(s: string, c: char): (r: string)
    ensures c !in r
    ensures StartsWith(s, r)
    ensures r == s || s[|r|] == c
  {
    if |s| == 0 then ""
    else if s[0] == c then ""
    else
      var t := BeforeFirst(s[1..], c);
      assert ([s[0]] + t)[1..] == t;
      [s[0]] + t
  }
}
