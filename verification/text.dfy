/** Character classes and string operations the pipeline borrows from Python
    (`str.isspace`, `str.lower`, `str.strip`, the regex classes `\s` and `\w`,
    and the substring test `needle in hay`), read over ASCII. Characters
    outside ASCII are neither word characters nor whitespace here. */
module Text {

  /** `str.isspace()` and the regex class `\s` on ASCII: the space, the
      controls tab, line feed, vertical tab, form feed and carriage return,
      and the separators 0x1C to 0x1F. */
  predicate IsSpace(c: char) {
    c == ' ' || '\t' <= c <= '\r' || '\U{1C}' <= c <= '\U{1F}'
  }

  predicate IsDigit(c: char) {
    '0' <= c <= '9'
  }

  predicate IsAsciiLetter(c: char) {
    'a' <= c <= 'z' || 'A' <= c <= 'Z'
  }

  /** The regex class `\w` on ASCII. */
  predicate IsWordChar(c: char) {
    IsAsciiLetter(c) || IsDigit(c) || c == '_'
  }

  function LowerChar(c: char): char {
    if 'A' <= c <= 'Z' then (c as int + 32) as char else c
  }

  /** `s.lower()` */
  function Lower(s: string): (r: string)
    ensures |r| == |s|
    ensures forall i :: 0 <= i < |s| ==> r[i] == LowerChar(s[i])
  {
    if s == [] then [] else [LowerChar(s[0])] + Lower(s[1..])
  }

  /** Drops the longest prefix of `s` whose characters all satisfy `drop`. */
  function TrimLeft(s: string, drop: char -> bool): (r: string)
    ensures |r| <= |s|
    ensures r == s[|s| - |r|..]
    ensures forall i :: 0 <= i < |s| - |r| ==> drop(s[i])
    ensures r == [] || !drop(r[0])
  {
    if |s| > 0 && drop(s[0]) then
      var rest := TrimLeft(s[1..], drop);
      assert s[1..][|s| - 1 - |rest|..] == s[|s| - |rest|..];
      rest
    else s
  }

  /** Drops the longest suffix of `s` whose characters all satisfy `drop`. */
  function TrimRight(s: string, drop: char -> bool): (r: string)
    ensures |r| <= |s|
    ensures r == s[..|r|]
    ensures forall i :: |r| <= i < |s| ==> drop(s[i])
    ensures r == [] || !drop(r[|r| - 1])
  {
    if |s| > 0 && drop(s[|s| - 1]) then
      var rest := TrimRight(s[..|s| - 1], drop);
      assert s[..|s| - 1][..|rest|] == s[..|rest|];
      rest
    else s
  }

  /** `s.strip(chars)` where `drop` says which characters are in `chars`. */
  function Trim(s: string, drop: char -> bool): (r: string)
    ensures r == [] || (!drop(r[0]) && !drop(r[|r| - 1]))
  {
    TrimRight(TrimLeft(s, drop), drop)
  }

  /** A string with no whitespace at either end. */
  predicate IsStripped(s: string) {
    s == [] || (!IsSpace(s[0]) && !IsSpace(s[|s| - 1]))
  }

  /** `s.strip()` */
  function Strip(s: string): (r: string)
    ensures IsStripped(r)
  {
    Trim(s, IsSpace)
  }

  /** `needle` occurs in `hay` starting at index `i`. */
  predicate OccursAt(needle: string, hay: string, i: int) {
    0 <= i && i + |needle| <= |hay| && hay[i..i + |needle|] == needle
  }

  /** `needle` is a contiguous, case- and whitespace-exact piece of `hay`. */
  ghost predicate IsSubstring(needle: string, hay: string) {
    exists i :: OccursAt(needle, hay, i)
  }

  /** Python's `needle in hay` on strings. */
  function Contains(hay: string, needle: string): (b: bool)
    ensures b <==> IsSubstring(needle, hay)
    decreases |hay|
  {
    if needle <= hay then
      assert OccursAt(needle, hay, 0);
      true
    else if |hay| == 0 then
      false
    else
      var rest := Contains(hay[1..], needle);
      assert rest ==> IsSubstring(needle, hay) by {
        if rest {
          var i :| OccursAt(needle, hay[1..], i);
          OccursShift(needle, hay, i);
        }
      }
      assert IsSubstring(needle, hay) ==> rest by {
        if IsSubstring(needle, hay) {
          var i :| OccursAt(needle, hay, i);
          assert i != 0;
          OccursShift(needle, hay, i - 1);
        }
      }
      rest
  }

  /** An occurrence in the tail is an occurrence one place later in the
      whole. */
  lemma OccursShift(needle: string, hay: string, i: int)
    requires |hay| > 0 && 0 <= i
    ensures OccursAt(needle, hay[1..], i) <==> OccursAt(needle, hay, i + 1)
  {
    if i + |needle| <= |hay| - 1 {
      assert hay[1..][i..i + |needle|] == hay[i + 1..i + 1 + |needle|];
    }
  }

  /** `any(k in text for k in keywords)` */
  function ContainsAny(text: string, keywords: seq<string>): (b: bool)
    ensures b <==> exists i :: 0 <= i < |keywords| && IsSubstring(keywords[i], text)
  {
    if keywords == [] then false
    else if Contains(text, keywords[0]) then true
    else
      var rest := ContainsAny(text, keywords[1..]);
      assert rest <==> exists i :: 1 <= i < |keywords| && IsSubstring(keywords[i], text) by {
        if rest {
          var i :| 0 <= i < |keywords[1..]| && IsSubstring(keywords[1..][i], text);
          assert keywords[1..][i] == keywords[i + 1];
        }
        if exists i :: 1 <= i < |keywords| && IsSubstring(keywords[i], text) {
          var i :| 1 <= i < |keywords| && IsSubstring(keywords[i], text);
          assert keywords[1..][i - 1] == keywords[i];
        }
      }
      rest
  }

  /** Trimming stops exactly where the dropped characters end. */
  lemma {:induction false} TrimLeftAfter(w: string, t: string, drop: char -> bool)
    requires forall i :: 0 <= i < |w| ==> drop(w[i])
    requires t == [] || !drop(t[0])
    ensures TrimLeft(w + t, drop) == t
  {
    if w == [] {
      assert w + t == t;
    } else {
      assert (w + t)[0] == w[0];
      assert (w + t)[1..] == w[1..] + t;
      TrimLeftAfter(w[1..], t, drop);
    }
  }

  /** A string already free of whitespace at its ends is its own strip. */
  lemma StripOfStripped(s: string)
    requires IsStripped(s)
    ensures Strip(s) == s
  {
  }

  lemma {:induction false} LowerKeepsLowerCase(s: string)
    requires forall i :: 0 <= i < |s| ==> !('A' <= s[i] <= 'Z')
    ensures Lower(s) == s
  {
    if s != [] {
      LowerKeepsLowerCase(s[1..]);
    }
  }

  lemma {:induction false} LowerAppend(a: string, b: string)
    ensures Lower(a + b) == Lower(a) + Lower(b)
  {
    if a == [] {
      assert a + b == b;
    } else {
      assert (a + b)[1..] == a[1..] + b;
      LowerAppend(a[1..], b);
    }
  }
}
