/** Record extraction: the first author's name and DBLP person id of a raw
    publication record. */
module Extractor {
  import opened Wrappers
  import opened Dblp

  /** The author list the code indexes: a single author object becomes a
      one-element list; a string is a sequence of one-character strings. */
  function AuthorList(f: AuthorField): (es: seq<Entry>)
    ensures es == [] <==> f.Absent? || (f.Many? && f.entries == []) || (f.Bare? && f.s == "")
    ensures f.Single? ==> |es| == 1 && es[0].Person?
    ensures f.Bare? ==> |es| == |f.s| && forall i :: 0 <= i < |es| ==> es[i] == Name([f.s[i]])
  {
    match f
    case Absent => []
    case Single(t, p) => [Person(t, p)]
    case Many(es) => es
    case Bare(s) => seq(|s|, i requires 0 <= i < |s| => Name([s[i]]))
  }

  /** (name, pid) of one list element: a string is a name without a pid; an
      object's name is its "text", else its "@pid", else "", and its pid is
      its "@pid", else "". */
  function FromEntry(e: Entry): (r: (Option<string>, Option<string>))
    ensures r.0.None? <==> e.Other?
    ensures r.1.Some? <==> e.Person?
    ensures e.Person? && e.text.None? ==> r.0 == r.1
  {
    match e
    case Name(s) => (Some(s), None)
    case Person(t, p) => (Some(if t.Some? then t.value else p.GetOr("")), Some(p.GetOr("")))
    case Other => (None, None)
  }

  /** `extract_first_author`: the (name, pid) of element 0 of the author
      list, or (None, None) when the list is empty or element 0 is neither a
      string nor an object. It never fails. */
  function ExtractFirstAuthor(f: AuthorField): (r: (Option<string>, Option<string>))
    ensures r.0.None? <==> AuthorList(f) == [] || AuthorList(f)[0].Other?
    ensures r.1.Some? <==> AuthorList(f) != [] && AuthorList(f)[0].Person?
    ensures r.1.Some? ==> r.0.Some?
  {
    var es := AuthorList(f);
    if es == [] then (None, None) else FromEntry(es[0])
  }

  /** No author field, or an empty list, yields (None, None). */
  lemma NoAuthors()
    ensures ExtractFirstAuthor(Absent) == (None, None)
    ensures ExtractFirstAuthor(Many([])) == (None, None)
    ensures ExtractFirstAuthor(Bare("")) == (None, None)
  {
  }

  /** A single author object is treated as a one-element list. */
  lemma SingleIsOneElementList(t: Option<string>, p: Option<string>)
    ensures ExtractFirstAuthor(Single(t, p)) == ExtractFirstAuthor(Many([Person(t, p)]))
  {
  }

  /** Only element 0 matters: the rest of the list is never looked at. */
  lemma OnlyFirstEntryMatters(e: Entry, rest: seq<Entry>)
    ensures ExtractFirstAuthor(Many([e] + rest)) == ExtractFirstAuthor(Many([e]))
  {
  }

  /** A bare-string first author `s` gives (s, None). */
  lemma BareNameFirst(s: string, rest: seq<Entry>)
    ensures ExtractFirstAuthor(Many([Name(s)] + rest)) == (Some(s), None)
  {
  }

  /** An object first author gives (text, pid or ""), the name falling back to
      "@pid" and then to "" when "text" is absent. */
  lemma PersonFirst(t: Option<string>, p: Option<string>, rest: seq<Entry>)
    ensures ExtractFirstAuthor(Many([Person(t, p)] + rest)).1 == Some(p.GetOr(""))
    ensures t.Some? ==> ExtractFirstAuthor(Many([Person(t, p)] + rest)).0 == t
    ensures t.None? && p.Some? ==> ExtractFirstAuthor(Many([Person(t, p)] + rest)).0 == p
    ensures t.None? && p.None? ==> ExtractFirstAuthor(Many([Person(t, p)] + rest)).0 == Some("")
  {
  }

  /** A non-empty string in place of the list yields its first character as
      the name, because Python indexes the string itself. */
  lemma BareFieldGivesFirstCharacter(s: string)
    requires s != ""
    ensures ExtractFirstAuthor(Bare(s)) == (Some([s[0]]), None)
  {
  }
}
