/** Identity normalisation of author names: `normalize_author_name`. */
module Normalizer {
  import opened Strings

  /** `normalize_author_name`: `" ".join(name.lower().split())`, with ""
      for an empty name. */
  function NormalizeAuthorName(name: string): string {
    if name == "" then "" else Join(Split(Lower(name)))
  }

  /** The normalised name is lower-case and single-spaced, is empty for an
      empty name, and has exactly the words of the lower-cased input. */
  lemma NormalizeShape(name: string)
    ensures name == "" ==> NormalizeAuthorName(name) == ""
    ensures NoUpper(NormalizeAuthorName(name)) && SingleSpaced(NormalizeAuthorName(name))
    ensures Split(NormalizeAuthorName(name)) == Split(Lower(name))
  {
    var ws := Split(Lower(name));
    forall i, j | 0 <= i < |ws| && 0 <= j < |ws[i]| ensures !IsUpper(ws[i][j]) {
      var c := ws[i][j];
      assert c in Lower(name);
    }
    assert forall i :: 0 <= i < |ws| ==> NoUpper(ws[i]);
    JoinShape(ws);
    SplitJoin(ws);
  }

  /** Normalising twice is normalising once. */
  lemma {:induction false} NormalizeIdempotent(name: string)
    ensures NormalizeAuthorName(NormalizeAuthorName(name)) == NormalizeAuthorName(name)
  {
    var r := NormalizeAuthorName(name);
    NormalizeShape(name);
    if r != "" {
      LowerKeepsLowercase(r);
      assert Split(Lower(r)) == Split(Lower(name));
      SplitJoin(Split(Lower(name)));
    }
  }

  /** Normalisation keeps every non-whitespace character of the name,
      lower-cased and in order, and drops only whitespace. */
  lemma NormalizeKeepsCharacters(name: string)
    ensures Strip(NormalizeAuthorName(name)) == Strip(Lower(name))
  {
    NormalizeShape(name);
    SplitKeepsCharacters(NormalizeAuthorName(name));
    SplitKeepsCharacters(Lower(name));
  }

  /** The key depends only on the words of the lower-cased name. */
  lemma SameWordsSameKey(a: string, b: string)
    requires Split(Lower(a)) == Split(Lower(b))
    ensures NormalizeAuthorName(a) == NormalizeAuthorName(b)
  {
  }

  /** The words of `s + [c] + t`, for a whitespace `c`, are those of `s`
      followed by those of `t`, lower-cased. */
  lemma WordsAtSpace(s: string, c: char, t: string)
    requires IsSpace(c)
    ensures Split(Lower(s + [c] + t)) == Split(Lower(s)) + Split(Lower(t))
  {
    assert Lower(s + [c] + t) == Lower(s) + [LowerChar(c)] + Lower(t) by {
      LowerAppend(s + [c], t);
      LowerAppend(s, [c]);
    }
    SplitAtSpace(Lower(s), LowerChar(c), Lower(t));
  }

  /** A run of whitespace counts as one separator: replacing one
      whitespace character by two leaves the key unchanged. */
  lemma SpaceRunSameKey(s: string, c: char, d: char, e: char, t: string)
    requires IsSpace(c) && IsSpace(d) && IsSpace(e)
    ensures NormalizeAuthorName(s + [c] + t) == NormalizeAuthorName(s + [d, e] + t)
  {
    assert Split(Lower([e] + t)) == Split(Lower(t)) by {
      assert [e] + t == [] + [e] + t;
      WordsAtSpace([], e, t);
    }
    assert Split(Lower(s + [d, e] + t)) == Split(Lower(s)) + Split(Lower(t)) by {
      assert s + [d, e] + t == s + [d] + ([e] + t);
      WordsAtSpace(s, d, [e] + t);
    }
    WordsAtSpace(s, c, t);
    SameWordsSameKey(s + [c] + t, s + [d, e] + t);
  }

  /** Leading whitespace does not change the key. */
  lemma LeadingSpaceSameKey(c: char, s: string)
    requires IsSpace(c)
    ensures NormalizeAuthorName([c] + s) == NormalizeAuthorName(s)
  {
    assert [c] + s == [] + [c] + s;
    WordsAtSpace([], c, s);
    SameWordsSameKey([c] + s, s);
  }

  /** Trailing whitespace does not change the key. */
  lemma TrailingSpaceSameKey(s: string, c: char)
    requires IsSpace(c)
    ensures NormalizeAuthorName(s + [c]) == NormalizeAuthorName(s)
  {
    assert s + [c] == s + [c] + [];
    WordsAtSpace(s, c, []);
    SameWordsSameKey(s + [c], s);
  }

  /** Names that are equal up to the case of their letters get the same key. */
  lemma CaseSameKey(a: string, b: string)
    requires |a| == |b| && forall i :: 0 <= i < |a| ==> LowerChar(a[i]) == LowerChar(b[i])
    ensures NormalizeAuthorName(a) == NormalizeAuthorName(b)
  {
    assert Lower(a) == Lower(b);
  }
}
