/** The few string primitives of JavaScript the pages use, restricted to what
    the model needs: `toLowerCase` on ASCII letters, `includes`, `trim` and
    `split`. Strings are sequences of characters. */
module Text {

  /** An upper-case ASCII letter. */
  predicate IsUpper(c: char) {
    'A' <= c <= 'Z'
  }

  /** ASCII lower-casing of one character; every other character is kept. */
  function LowerChar(c: char): (r: char)
    ensures !IsUpper(r)
    ensures IsUpper(c) ==> r as int - c as int == 32
    ensures !IsUpper(c) ==> r == c
  {
    if IsUpper(c) then (c as int + 32) as char else c
  }

  /** `s.toLowerCase()`, restricted to the ASCII letters. */
  function Lower(s: string): (r: string)
    ensures |r| == |s|
    ensures forall i :: 0 <= i < |s| ==> r[i] == LowerChar(s[i])
  {
    seq(|s|, i requires 0 <= i < |s| => LowerChar(s[i]))
  }

  /** Lower-casing twice is lower-casing once. */
  lemma LowerIdempotent(s: string)
    ensures Lower(Lower(s)) == Lower(s)
  {
  }

  /** `needle` occurs in `hay` starting at offset `i`. */
  predicate OccursAt(hay: string, needle: string, i: int) {
    0 <= i && i + |needle| <= |hay| && hay[i..i + |needle|] == needle
  }

  /** `hay.includes(needle)`: a left-to-right scan for an occurrence. */
  function Includes(hay: string, needle: string): bool
    decreases |hay|
  {
    if |needle| > |hay| then false
    else if hay[..|needle|] == needle then true
    else Includes(hay[1..], needle)
  }

  /** The scan finds an occurrence exactly when one exists. */
  lemma {:induction false} IncludesIffOccurs(hay: string, needle: string)
    ensures Includes(hay, needle) <==> exists i :: OccursAt(hay, needle, i)
    decreases |hay|
  {
    if |needle| > |hay| {
      assert forall i :: !OccursAt(hay, needle, i);
    } else if hay[..|needle|] == needle {
      assert OccursAt(hay, needle, 0);
    } else {
      IncludesIffOccurs(hay[1..], needle);
      if Includes(hay[1..], needle) {
        var j :| OccursAt(hay[1..], needle, j);
        assert hay[1..][j..j + |needle|] == hay[j + 1..j + 1 + |needle|];
        assert OccursAt(hay, needle, j + 1);
      } else {
        forall i | OccursAt(hay, needle, i)
          ensures false
        {
          assert i != 0;
          assert hay[1..][i - 1..i - 1 + |needle|] == hay[i..i + |needle|];
          assert OccursAt(hay[1..], needle, i - 1);
        }
      }
    }
  }

  /** The empty string is included in every string. */
  lemma EmptyIncluded(hay: string)
    ensures Includes(hay, "")
  {
  }

  /** The characters `String.prototype.trim` removes: the ECMAScript
      WhiteSpace and LineTerminator code points. */
  predicate IsSpace(c: char) {
    || c == '\t' || c == '\n' || c == '\U{000B}' || c == '\U{000C}' || c == '\r'
    || c == ' ' || c == '\U{00A0}' || c == '\U{1680}'
    || ('\U{2000}' <= c <= '\U{200A}')
    || c == '\U{2028}' || c == '\U{2029}' || c == '\U{202F}' || c == '\U{205F}'
    || c == '\U{3000}' || c == '\U{FEFF}'
  }

  /** Every character of `s[lo..hi]` is white space. */
  predicate SpaceRun(s: string, lo: int, hi: int) {
    forall k :: lo <= k < hi && 0 <= k < |s| ==> IsSpace(s[k])
  }

  predicate AllSpace(s: string) {
    SpaceRun(s, 0, |s|)
  }

  /** The end of the white-space run that starts at `i`. */
  function SkipSpace(s: string, i: nat): (n: nat)
    requires i <= |s|
    ensures i <= n <= |s|
    ensures SpaceRun(s, i, n)
    ensures n < |s| ==> !IsSpace(s[n])
    decreases |s| - i
  {
    if i < |s| && IsSpace(s[i]) then SkipSpace(s, i + 1) else i
  }

  /** The start of the white-space run that ends at `j`, not going below `lo`. */
  function SkipSpaceBack(s: string, lo: nat, j: nat): (n: nat)
    requires lo <= j <= |s|
    ensures lo <= n <= j
    ensures SpaceRun(s, n, j)
    ensures n > lo ==> !IsSpace(s[n - 1])
    decreases j
  {
    if j > lo && IsSpace(s[j - 1]) then SkipSpaceBack(s, lo, j - 1) else j
  }

  /** `s.trim()`. */
  function Trim(s: string): (r: string)
    // the result is a slice of s with only white space cut away on either side
    ensures exists i :: 0 <= i && i + |r| <= |s| && s[i..i + |r|] == r
                        && SpaceRun(s, 0, i) && SpaceRun(s, i + |r|, |s|)
    // and it neither starts nor ends with white space
    ensures |r| > 0 ==> !IsSpace(r[0]) && !IsSpace(r[|r| - 1])
    // it is empty exactly when s is all white space
    ensures |r| == 0 <==> AllSpace(s)
  {
    var a := SkipSpace(s, 0);
    var e := SkipSpaceBack(s, a, |s|);
    assert a < |s| ==> a < e;
    s[a..e]
  }

  /** `s.split(sep)` for a one-character separator: the pieces between
      successive separators, always at least one. */
  function Split(s: string, sep: char): (pieces: seq<string>)
    ensures |pieces| > 0 && pieces[0] == BeforeFirst(s, sep)
    ensures forall k :: 0 <= k < |pieces| ==> sep !in pieces[k]
    decreases |s|
  {
    var head := BeforeFirst(s, sep);
    if |head| == |s| then [s]
    else [head] + Split(s[|head| + 1..], sep)
  }

  /** The piece of `s` before its first `sep`, or all of `s` when there is none. */
  function BeforeFirst(s: string, sep: char): (r: string)
    ensures r <= s
    ensures sep !in r
    ensures |r| < |s| ==> s[|r|] == sep
  {
    if |s| == 0 || s[0] == sep then ""
    else [s[0]] + BeforeFirst(s[1..], sep)
  }

  /** The pieces rejoined with the separator. */
  function Join(pieces: seq<string>, sep: char): string
  {
    if |pieces| == 0 then ""
    else if |pieces| == 1 then pieces[0]
    else pieces[0] + [sep] + Join(pieces[1..], sep)
  }

  /** Splitting loses nothing: joining the pieces gives back the string. */
  lemma {:induction false} SplitJoin(s: string, sep: char)
    ensures Join(Split(s, sep), sep) == s
    decreases |s|
  {
    var head := BeforeFirst(s, sep);
    if |head| < |s| {
      var tail := s[|head| + 1..];
      var rest := Split(tail, sep);
      assert Join(rest, sep) == tail by { SplitJoin(tail, sep); }
      assert Split(s, sep) == [head] + rest;
      assert Join([head] + rest, sep) == head + [sep] + Join(rest, sep) by {
        assert ([head] + rest)[1..] == rest;
      }
      assert s == head + [sep] + tail;
    }
  }
}
