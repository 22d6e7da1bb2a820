/** The Python string built-ins the agents rely on: str.isspace, str.split() with
    no argument, " ".join, str.lower, the substring test `needle in hay`, and the
    regular-expression classes \s and \w. */
module Text {

  /** Python's str.isspace on one character: the characters str.split() with no
      argument (and the regex class \s) treat as separators. */
  predicate IsSpace(c: char) {
    var n := c as int;
    (9 <= n <= 13) || (28 <= n <= 32) || n == 0x85 || n == 0xA0 || n == 0x1680 ||
    (0x2000 <= n <= 0x200A) || n == 0x2028 || n == 0x2029 || n == 0x202F ||
    n == 0x205F || n == 0x3000
  }

  /** The regex class \w, restricted to ASCII: letters, digits and underscore. */
  predicate IsWordChar(c: char) {
    ('a' <= c <= 'z') || ('A' <= c <= 'Z') || ('0' <= c <= '9') || c == '_'
  }

  /** str.lower on one character, restricted to ASCII. */
  function Lower(c: char): char {
    if 'A' <= c <= 'Z' then (c as int + 32) as char else c
  }

  function LowerStr(s: string): string {
    seq(|s|, i requires 0 <= i < |s| => Lower(s[i]))
  }

  /** Python's `needle in hay` on strings: needle occurs as a contiguous substring. */
  predicate Contains(hay: string, needle: string) {
    exists i | 0 <= i <= |hay| - |needle| :: OccursAt(hay, needle, i)
  }

  predicate OccursAt(hay: string, needle: string, i: int) {
    0 <= i <= |hay| - |needle| && hay[i..i + |needle|] == needle
  }

  /** Lower-casing commutes with taking a substring, so an occurrence of a
      substring is also an occurrence of its lower-cased form in the lower-cased
      string. */
  lemma LowerContains(hay: string, i: nat, j: nat)
    requires i <= j <= |hay|
    ensures Contains(LowerStr(hay), LowerStr(hay[i..j]))
  {
    assert OccursAt(LowerStr(hay), LowerStr(hay[i..j]), i);
  }

  /** A needle without upper-case letters that occurs in hay also occurs in the
      lower-cased hay. */
  lemma ContainsLowered(hay: string, needle: string)
    requires forall i | 0 <= i < |needle| :: !('A' <= needle[i] <= 'Z')
    requires Contains(hay, needle)
    ensures Contains(LowerStr(hay), needle)
  {
    var i :| 0 <= i <= |hay| - |needle| && OccursAt(hay, needle, i);
    LowerContains(hay, i, i + |needle|);
    assert LowerStr(needle) == needle;
    assert LowerStr(hay[i..i + |needle|]) == needle;
  }

  /** A word of str.split(): non-empty and free of separators. */
  predicate IsWord(w: string) {
    w != [] && forall i :: 0 <= i < |w| ==> !IsSpace(w[i])
  }

  /** The length of the run of non-separators that s starts with. */
  function TokenLength(s: string): (n: nat)
    ensures n <= |s|
    ensures forall i :: 0 <= i < n ==> !IsSpace(s[i])
    ensures n < |s| ==> IsSpace(s[n])
  {
    if s == [] || IsSpace(s[0]) then 0 else 1 + TokenLength(s[1..])
  }

  /** str.split() with no argument: the maximal runs of non-separators, in order;
      leading, trailing and repeated separators produce no empty words. */
  function Words(s: string): (ws: seq<string>)
    ensures forall w :: w in ws ==> IsWord(w)
    decreases |s|
  {
    if s == [] then []
    else if IsSpace(s[0]) then Words(s[1..])
    else
      var n := TokenLength(s);
      [s[..n]] + Words(s[n..])
  }

  /** " ".join(ws) */
  function JoinSpace(ws: seq<string>): string {
    if ws == [] then ""
    else if |ws| == 1 then ws[0]
    else ws[0] + " " + JoinSpace(ws[1..])
  }

  /** A text splits into no words exactly when it is empty or all separators. */
  lemma {:induction false} WordsEmptyIffBlank(s: string)
    ensures Words(s) == [] <==> forall i :: 0 <= i < |s| ==> IsSpace(s[i])
    decreases |s|
  {
    if s != [] {
      WordsEmptyIffBlank(s[1..]);
      if IsSpace(s[0]) {
        forall i | 0 < i < |s| ensures s[i] == s[1..][i - 1] { }
      }
    }
  }

  /** A word followed by a separator (or by nothing) is split off as one word. */
  lemma WordsOfWordThen(w: string, t: string)
    requires IsWord(w)
    requires t == [] || IsSpace(t[0])
    ensures Words(w + t) == [w] + Words(t)
  {
    var s := w + t;
    var n := TokenLength(s);
    assert forall i :: 0 <= i < |w| ==> s[i] == w[i];
    assert |w| < |s| ==> s[|w|] == t[0];
    assert n == |w|;
    assert s[..n] == w && s[n..] == t;
  }

  /** Splitting a single-space join of words gives the words back. */
  lemma {:induction false} WordsOfJoin(ws: seq<string>)
    requires forall w :: w in ws ==> IsWord(w)
    ensures Words(JoinSpace(ws)) == ws
  {
    if |ws| == 1 {
      WordsOfWordThen(ws[0], "");
      assert ws[0] + "" == ws[0];
    } else if |ws| > 1 {
      var rest := JoinSpace(ws[1..]);
      WordsOfJoin(ws[1..]);
      assert ws[0] + " " + rest == ws[0] + (" " + rest);
      WordsOfWordThen(ws[0], " " + rest);
      assert (" " + rest)[1..] == rest;
    }
  }
}
