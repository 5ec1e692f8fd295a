/** String helpers used by the validator, the search and the sort keys:
    ASCII white-space stripping, ASCII lower-casing, substring search,
    "text after the last separator" and Python's lexicographic string order. */
module Text {

  /** The ASCII characters Python's `str.isspace()` accepts:
      tab, line feed, vertical tab, form feed, carriage return,
      the four information separators 0x1C-0x1F, and space. */
  predicate IsSpace(c: char) {
    ('\t' <= c <= '\r') || ('\U{1C}' <= c <= ' ')
  }

  /** Number of leading white-space characters of `s`. */
  function LeadingSpaces(s: string): (k: nat)
    ensures k <= |s|
    ensures forall i :: 0 <= i < k ==> IsSpace(s[i])
    ensures k < |s| ==> !IsSpace(s[k])
  {
    if |s| > 0 && IsSpace(s[0]) then 1 + LeadingSpaces(s[1..]) else 0
  }

  /** Number of trailing white-space characters of `s`. */
  function TrailingSpaces(s: string): (k: nat)
    ensures k <= |s|
    ensures forall i :: |s| - k <= i < |s| ==> IsSpace(s[i])
    ensures k < |s| ==> !IsSpace(s[|s| - 1 - k])
  {
    if |s| > 0 && IsSpace(s[|s| - 1]) then 1 + TrailingSpaces(s[..|s| - 1]) else 0
  }

  /** Python's `s.strip()` restricted to ASCII white space. */
  function Strip(s: string): (r: string)
    ensures |r| <= |s|
    ensures |r| > 0 ==> !IsSpace(r[0]) && !IsSpace(r[|r| - 1])
  {
    var i := LeadingSpaces(s);
    if i == |s| then []
    else
      var t := TrailingSpaces(s);
      assert t < |s| - i by {
        assert !IsSpace(s[i]);
      }
      s[i..|s| - t]
  }

  /** What `strip` keeps: the middle slice of `s` that neither starts nor
      ends with white space, only white space being cut off on either side. */
  lemma StripKeepsMiddle(s: string)
    ensures exists i, j ::
              && 0 <= i <= j <= |s| && Strip(s) == s[i..j]
              && (forall k :: 0 <= k < i ==> IsSpace(s[k]))
              && (forall k :: j <= k < |s| ==> IsSpace(s[k]))
  {
    var i := LeadingSpaces(s);
    if i == |s| {
      assert Strip(s) == s[i..i];
    } else {
      var t := TrailingSpaces(s);
      assert !IsSpace(s[i]);
      assert Strip(s) == s[i..|s| - t];
    }
  }

  /** `not s.strip()`: the leading white space runs to the end of `s`. */
  predicate IsBlank(s: string) {
    LeadingSpaces(s) == |s|
  }

  /** A string is blank exactly when `strip` leaves nothing of it, and
      exactly when every character in it is white space. */
  lemma BlankIffAllSpace(s: string)
    ensures IsBlank(s) <==> Strip(s) == []
    ensures IsBlank(s) <==> forall k :: 0 <= k < |s| ==> IsSpace(s[k])
  {
  }

  /** ASCII lower-casing of one character. */
  function LowerChar(c: char): char {
    if 'A' <= c <= 'Z' then (c as int + 32) as char else c
  }

  /** `s.lower()` for ASCII letters; every other character is kept. */
  function Lower(s: string): (r: string)
    ensures |r| == |s|
    ensures forall i :: 0 <= i < |s| ==> r[i] == LowerChar(s[i])
  {
    if |s| == 0 then [] else [LowerChar(s[0])] + Lower(s[1..])
  }

  /** Lower-casing a character neither makes nor unmakes white space. */
  lemma LowerCharKeepsSpace(c: char)
    ensures IsSpace(LowerChar(c)) <==> IsSpace(c)
  {
  }

  /** Lower-casing leaves white space where it was, so it commutes with blankness. */
  lemma LowerKeepsBlank(s: string)
    ensures IsBlank(Lower(s)) <==> IsBlank(s)
  {
    BlankIffAllSpace(s);
    BlankIffAllSpace(Lower(s));
    var t := Lower(s);
    forall k | 0 <= k < |s|
      ensures IsSpace(t[k]) <==> IsSpace(s[k])
    {
      LowerCharKeepsSpace(s[k]);
    }
  }

  /** `q` occurs in `text` starting at index `i`. */
  predicate OccursAt(text: string, q: string, i: int) {
    0 <= i && i + |q| <= |text| && text[i..i + |q|] == q
  }

  /** Python's `q in text` for strings: substring search. */
  function Contains(text: string, q: string): (r: bool)
    ensures r <==> exists i :: OccursAt(text, q, i)
    decreases |text|
  {
    if |q| > |text| then false
    else if text[..|q|] == q then
      assert OccursAt(text, q, 0);
      true
    else if |text| == 0 then false
    else
      var r := Contains(text[1..], q);
      assert r ==> exists i :: OccursAt(text, q, i) by {
        if r {
          var i :| OccursAt(text[1..], q, i);
          assert text[1..][i..i + |q|] == text[i + 1..i + 1 + |q|];
          assert OccursAt(text, q, i + 1);
        }
      }
      assert (exists i :: OccursAt(text, q, i)) ==> r by {
        if exists i :: OccursAt(text, q, i) {
          var i :| OccursAt(text, q, i);
          assert i != 0;
          assert text[1..][i - 1..i - 1 + |q|] == text[i..i + |q|];
          assert OccursAt(text[1..], q, i - 1);
        }
      }
      r
  }

  /** A text contains each of its middle parts. */
  lemma ContainsMiddle(pre: string, q: string, post: string)
    ensures Contains(pre + q + post, q)
  {
    var t := pre + q + post;
    assert t[|pre|..|pre| + |q|] == q;
    assert OccursAt(t, q, |pre|);
  }

  /** The text after the last occurrence of `sep`, or all of `s` when `sep`
      does not occur: Python's `s.split(sep)[-1]` for a one-character `sep`. */
  function AfterLast(s: string, sep: char): (r: string)
    ensures |r| <= |s| && r == s[|s| - |r|..]
    ensures sep !in r
    ensures |r| < |s| ==> s[|s| - |r| - 1] == sep
  {
    if |s| == 0 then []
    else if s[|s| - 1] == sep then []
    else
      var r := AfterLast(s[..|s| - 1], sep);
      assert s[..|s| - 1][|s| - 1 - |r|..] + [s[|s| - 1]] == s[|s| - |r| - 1..];
      r + [s[|s| - 1]]
  }

  /** Python's `a <= b` on strings: lexicographic by code point, a proper
      prefix sorting first. */
  predicate StrLe(a: string, b: string) {
    |a| == 0 || (|b| > 0 && (a[0] < b[0] || (a[0] == b[0] && StrLe(a[1..], b[1..]))))
  }

  /** Any two strings are comparable. */
  lemma {:induction false} StrLeTotal(a: string, b: string)
    ensures StrLe(a, b) || StrLe(b, a)
  {
    if |a| > 0 && |b| > 0 && a[0] == b[0] {
      StrLeTotal(a[1..], b[1..]);
    }
  }

  /** The order is transitive. */
  lemma {:induction false} StrLeTransitive(a: string, b: string, c: string)
    requires StrLe(a, b) && StrLe(b, c)
    ensures StrLe(a, c)
  {
    if |a| > 0 && a[0] == b[0] && b[0] == c[0] {
      StrLeTransitive(a[1..], b[1..], c[1..]);
    }
  }

  /** The order is antisymmetric, so it is a total order on strings. */
  lemma {:induction false} StrLeAntisymmetric(a: string, b: string)
    requires StrLe(a, b) && StrLe(b, a)
    ensures a == b
  {
    if |a| > 0 {
      StrLeAntisymmetric(a[1..], b[1..]);
      assert a == [a[0]] + a[1..] && b == [b[0]] + b[1..];
    }
  }
}
