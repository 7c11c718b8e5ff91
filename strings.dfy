/** String operations used by the matcher: Python's substring test `t in s`,
    ASCII lower-casing (`str.lower`), whitespace splitting (`str.split()`)
    and joining with single spaces (`" ".join`). */
module Strings {

  // ---------------------------------------------------------------------
  // Substrings
  // ---------------------------------------------------------------------

  predicate IsPrefix(t: string, s: string) {
    |t| <= |s| && s[..|t|] == t
  }

  /** Python's `t in s` for strings: `t` occurs in `s` as a contiguous block. */
  predicate Contains(s: string, t: string)
    decreases |s|
  {
    IsPrefix(t, s) || (s != [] && Contains(s[1..], t))
  }

  /** A string containing `t` contains every character of `t`; so a
      character of `t` missing from `s` rules the substring out. */
  lemma {:induction false} ContainsChars(s: string, t: string)
    requires Contains(s, t)
    ensures forall c :: c in t ==> c in s
    decreases |s|
  {
    if IsPrefix(t, s) {
      forall c | c in t ensures c in s {
        var k :| 0 <= k < |t| && t[k] == c;
        assert s[k] == c;
      }
    } else {
      ContainsChars(s[1..], t);
      forall c | c in t ensures c in s {
        var k :| 0 <= k < |s[1..]| && s[1..][k] == c;
        assert s[k + 1] == c;
      }
    }
  }

  // ---------------------------------------------------------------------
  // Characters
  // ---------------------------------------------------------------------

  /** The ASCII characters that Python's `str.split()` treats as whitespace:
      tab, line feed, vertical tab, form feed, carriage return, the four
      information separators 0x1C..0x1F, and space. */
  predicate IsSpace(c: char) {
    c == ' ' || 9 <= c as int <= 13 || 28 <= c as int <= 31
  }

  predicate IsUpper(c: char) {
    'A' <= c <= 'Z'
  }

  function LowerChar(c: char): (r: char)
    ensures !IsUpper(r)
    ensures IsSpace(r) <==> IsSpace(c)
    ensures !IsUpper(c) ==> r == c
  {
    if IsUpper(c) then (c as int - 'A' as int + 'a' as int) as char else c
  }

  /** ASCII model of Python's `str.lower()`. */
  function Lower(s: string): (r: string)
    ensures |r| == |s|
    ensures forall i :: 0 <= i < |s| ==> r[i] == LowerChar(s[i])
  {
    seq(|s|, i requires 0 <= i < |s| => LowerChar(s[i]))
  }

  predicate NoUpper(s: string) {
    forall i :: 0 <= i < |s| ==> !IsUpper(s[i])
  }

  predicate NoSpace(s: string) {
    forall i :: 0 <= i < |s| ==> !IsSpace(s[i])
  }

  /** Lower-casing leaves a string without upper-case letters unchanged. */
  lemma LowerKeepsLowercase(s: string)
    requires NoUpper(s)
    ensures Lower(s) == s
  {
  }

  // ---------------------------------------------------------------------
  // Splitting and joining
  // ---------------------------------------------------------------------

  /** A word as produced by `str.split()`: non-empty and free of whitespace. */
  predicate IsWord(w: string) {
    w != [] && NoSpace(w)
  }

  /** The longest prefix of `s` free of whitespace. */
  function Token(s: string): (w: string)
    ensures |w| <= |s| && w == s[..|w|]
    ensures NoSpace(w)
    ensures |w| < |s| ==> IsSpace(s[|w|])
    ensures s != [] && !IsSpace(s[0]) ==> w != []
    decreases |s|
  {
    if s == [] || IsSpace(s[0]) then [] else [s[0]] + Token(s[1..])
  }

  /** Python's `s.split()`: the maximal whitespace-free runs of `s`, in order;
      leading, trailing and repeated whitespace produce no words. */
  function Split(s: string): (ws: seq<string>)
    ensures forall i :: 0 <= i < |ws| ==> IsWord(ws[i])
    ensures forall i, j :: 0 <= i < |ws| && 0 <= j < |ws[i]| ==> ws[i][j] in s
    decreases |s|
  {
    if s == [] then []
    else if IsSpace(s[0]) then
      var rest := Split(s[1..]);
      assert forall c :: c in s[1..] ==> c in s;
      rest
    else
      var w := Token(s);
      var rest := Split(s[|w|..]);
      assert forall c :: c in s[|w|..] ==> c in s;
      assert forall c :: c in w ==> c in s;
      [w] + rest
  }

  /** Python's `" ".join(ws)`. */
  function Join(ws: seq<string>): string {
    if ws == [] then ""
    else if |ws| == 1 then ws[0]
    else ws[0] + " " + Join(ws[1..])
  }

  /** The token of a word followed by nothing or by whitespace is that word. */
  lemma {:induction false} TokenOfWord(w: string, tail: string)
    requires NoSpace(w)
    requires tail == [] || IsSpace(tail[0])
    ensures Token(w + tail) == w
    decreases |w|
  {
    if w == [] {
      assert w + tail == tail;
    } else {
      assert (w + tail)[1..] == w[1..] + tail;
      TokenOfWord(w[1..], tail);
    }
  }

  /** Splitting undoes joining: a sequence of words joined with single
      spaces splits back into the same words. */
  lemma {:induction false} SplitJoin(ws: seq<string>)
    requires forall i :: 0 <= i < |ws| ==> IsWord(ws[i])
    ensures Split(Join(ws)) == ws
    decreases |ws|
  {
    if ws == [] {
    } else if |ws| == 1 {
      var w := ws[0];
      assert w + [] == w;
      TokenOfWord(w, []);
      assert w[|w|..] == [];
    } else {
      var w, j := ws[0], Join(ws[1..]);
      var s := w + (" " + j);
      assert Join(ws) == s;
      TokenOfWord(w, " " + j);
      assert s[|w|..] == " " + j;
      assert (" " + j)[1..] == j;
      SplitJoin(ws[1..]);
    }
  }

  /** The characters of `s` that are not whitespace, in order. */
  function Strip(s: string): string
    decreases |s|
  {
    if s == [] then [] else (if IsSpace(s[0]) then [] else [s[0]]) + Strip(s[1..])
  }

  /** The words of `ws` run together: Python's `"".join(ws)`. */
  function Concat(ws: seq<string>): string {
    if ws == [] then [] else ws[0] + Concat(ws[1..])
  }

  /** A string is its leading token followed by the rest, as far as its
      non-whitespace characters go. */
  lemma {:induction false} StripToken(s: string)
    ensures Strip(s) == Token(s) + Strip(s[|Token(s)|..])
    decreases |s|
  {
    if s == [] || IsSpace(s[0]) {
      assert s[0..] == s;
    } else {
      var t := Token(s[1..]);
      StripToken(s[1..]);
      assert Token(s) == [s[0]] + t;
      assert Strip(s) == [s[0]] + Strip(s[1..]);
      assert s[1..][|t|..] == s[|t| + 1..];
    }
  }


  /** `str.split()` loses no non-whitespace character and reorders none:
      the words run together are the input with its whitespace removed. */
  lemma {:induction false} SplitKeepsCharacters(s: string)
    ensures Concat(Split(s)) == Strip(s)
    decreases |s|
  {
    if s == [] {
    } else if IsSpace(s[0]) {
      SplitKeepsCharacters(s[1..]);
    } else {
      var w := Token(s);
      SplitKeepsCharacters(s[|w|..]);
      StripToken(s);
      assert Split(s) == [w] + Split(s[|w|..]);
      assert ([w] + Split(s[|w|..]))[1..] == Split(s[|w|..]);
    }
  }

  /** Lower-casing works character by character, so it distributes over
      concatenation. */
  lemma LowerAppend(a: string, b: string)
    ensures Lower(a + b) == Lower(a) + Lower(b)
  {
  }

  /** A word followed by nothing or by whitespace is split off whole. */
  lemma SplitWord(w: string, rest: string)
    requires IsWord(w) && (rest == [] || IsSpace(rest[0]))
    ensures Split(w + rest) == [w] + Split(rest)
  {
    TokenOfWord(w, rest);
    assert (w + rest)[|w|..] == rest;
  }

  /** A whitespace character separates words: splitting at it splits the
      two sides independently. */
  lemma {:induction false} SplitAtSpace(s: string, c: char, t: string)
    requires IsSpace(c)
    ensures Split(s + [c] + t) == Split(s) + Split(t)
    decreases |s|
  {
    if s == [] {
      assert (s + [c] + t)[1..] == t;
    } else if IsSpace(s[0]) {
      assert (s + [c] + t)[1..] == s[1..] + [c] + t;
      SplitAtSpace(s[1..], c, t);
    } else {
      var w := Token(s);
      var r := s[|w|..];
      SplitAtSpace(r, c, t);
      assert Split(s) == [w] + Split(r) by {
        assert s == w + r;
        SplitWord(w, r);
      }
      assert Split(s + [c] + t) == [w] + Split(r + [c] + t) by {
        assert s + [c] + t == w + (r + [c] + t);
        SplitWord(w, r + [c] + t);
      }
    }
  }






  /** The canonical spacing produced by `" ".join(s.split())`: the only
      whitespace character is the plain space, there is none at either end,
      and no two spaces are adjacent. */
  ghost predicate SingleSpaced(s: string) {
    && (forall i :: 0 <= i < |s| && IsSpace(s[i]) ==> s[i] == ' ')
    && (s != [] ==> s[0] != ' ' && s[|s| - 1] != ' ')
    && (forall i, j :: 0 <= i < j < |s| && j == i + 1 ==> s[i] != ' ' || s[j] != ' ')
  }

  /** Joining words yields single-spaced text, non-empty exactly when there
      is a word, whose letters are those of the words. */
  lemma {:induction false} JoinShape(ws: seq<string>)
    requires forall i :: 0 <= i < |ws| ==> IsWord(ws[i])
    ensures SingleSpaced(Join(ws))
    ensures Join(ws) == [] <==> ws == []
    ensures (forall i :: 0 <= i < |ws| ==> NoUpper(ws[i])) ==> NoUpper(Join(ws))
    decreases |ws|
  {
    if |ws| > 1 {
      var w, j := ws[0], Join(ws[1..]);
      JoinShape(ws[1..]);
      var s := w + " " + j;
      assert Join(ws) == s;
      assert |s| == |w| + 1 + |j|;
      forall i | 0 <= i < |s| ensures s[i] == (if i < |w| then w[i] else if i == |w| then ' ' else j[i - |w| - 1]) {
      }
      assert j[0] != ' ';
      assert s[|s| - 1] == j[|j| - 1];
      forall i, k | 0 <= i < k < |s| && k == i + 1 ensures s[i] != ' ' || s[k] != ' ' {
        if i < |w| - 1 {
          assert !IsSpace(w[i]);
        } else if i == |w| - 1 {
          assert !IsSpace(w[i]);
        } else if i == |w| {
          assert s[k] == j[0];
        } else {
          assert s[i] == j[i - |w| - 1] && s[k] == j[k - |w| - 1];
        }
      }
      if forall i :: 0 <= i < |ws| ==> NoUpper(ws[i]) {
        assert NoUpper(w);
        assert forall i :: 0 <= i < |ws[1..]| ==> NoUpper(ws[1..][i]);
      }
    } else if |ws| == 1 {
      assert Join(ws) == ws[0];
    }
  }
}
