# POPL / ICLR first-author matcher

This project models the record-processing core of
`files/find_common_authors.py`. The script finds the people who were first
author of a paper at both POPL and ICLR between 2016 and 2025, using the DBLP
publication search. The model covers the following steps.

- **Dblp** describes the shapes of a raw DBLP record that the code tells
  apart:
  - the `authors.author` field, which may be absent, a single object, a list,
    or a string;
  - each list element, which may be a string, an object with optional `text`
    and `@pid`, or something else;
  - `venue`, `type` and `number` with their `""` defaults. The ICLR filter reads `type` without a default, so it sees None, but None and `""` both differ from "Editorship" and the filter keeps the same records;
  - the optional `title`.
- **Extractor** models `extract_first_author`. A single object is treated as
  a one-element list, and only element 0 is read. The name comes from `text`,
  else `@pid`, else `""`, and the id is `@pid` or `""`.
  If a string stands in place of the author list, the code indexes the
  string itself, so the name is its first character.
- **Strings** and **Normalizer** model `normalize_author_name`, which is
  `" ".join(name.lower().split())`. Lowercasing and whitespace are ASCII.
- **Classifier** models the three venue tests:
  - `is_popl_paper`;
  - the inline primary filter on the POPL stream;
  - the ICLR list comprehension.
- **Collector** models the per-year loops of `fetch_popl_data` and
  `fetch_iclr_data`:
  - the stream queries are a function `stream(year)`;
  - the PACMPL table-of-contents queries are a function `toc(volume)`;
  - the POPL collector also returns the list of volumes it requested;
  - the `defaultdict(list)` author index is a `map` from identity key to
    papers. Its specification is `Group(papers)`: one entry per key, holding
    that key's papers in append order.
- **Matcher** models `find_common_authors`:
  - intersect the keys;
  - build one entry per common key, in the set's unspecified iteration order;
  - sort in place by `popl_count + iclr_count`, descending.
- **Pipeline** models `main` without its printing and file output. It
  connects the matched entries back to the papers that were collected.

Each collector method is proved to produce `Group` of a specification
function over the inputs (`PoplPapers`, `IclrPapers`, `TocVolumes`). Lemmas
then prove the collector invariant, the fallback trigger and the exact
filters from those functions.

## Model

| member | source | states |
|---|---|---|
| Extractor.AuthorList | files/find_common_authors.py:122-128 | The list is empty, so line 128 returns (None, None), exactly when the field is missing, an empty list or an empty string. A single object becomes a one-element list holding an object. A string becomes the list of its characters, one per element. |
| Extractor.FromEntry | files/find_common_authors.py:133-141 | The name is None exactly for a non-string, non-object element, and a pid is present exactly for an object. An object without `text` takes its pid as its name. |
| Extractor.ExtractFirstAuthor | files/find_common_authors.py:117-141 | The name is None exactly when the list is empty or element 0 is neither string nor object. A pid is present exactly when element 0 is an object, and a pid implies a name. |
| Extractor.NoAuthors | files/find_common_authors.py:122-129 | A missing field, an empty list or an empty string gives (None, None). |
| Extractor.SingleIsOneElementList | files/find_common_authors.py:124-126 | A single author object is read exactly like a one-element list. |
| Extractor.OnlyFirstEntryMatters | files/find_common_authors.py:131 | Entries after element 0 never affect the result. |
| Extractor.BareNameFirst | files/find_common_authors.py:134-135 | A string first author `s` gives `(s, None)`. |
| Extractor.PersonFirst | files/find_common_authors.py:136-139 | An object first author gives:<br>• pid `@pid` or `""`;<br>• name `text`, else `@pid`, else `""`. |
| Extractor.BareFieldGivesFirstCharacter | files/find_common_authors.py:122-135 | If `authors.author` is a non-empty string, the name is its first character and the pid is None. |
| Strings.Contains | files/find_common_authors.py:163-168 | Definition of Python's `t in s` for strings: `t` occurs in `s` as a contiguous block. The venue tests at lines 163, 167, 195 and 268-269 use it. |
| Strings.ContainsChars | files/find_common_authors.py:163 | A string containing `t` contains every character of `t`. |
| Strings.Join | files/find_common_authors.py:151 | Definition of `" ".join(ws)`: the words, separated by single spaces. |
| Strings.Lower | files/find_common_authors.py:151 | `str.lower` keeps the length, maps each character separately, and leaves no upper-case letter. |
| Strings.Split | files/find_common_authors.py:151 | `str.split()` yields non-empty words free of whitespace, taken from the input's characters. |
| Strings.SplitAtSpace | files/find_common_authors.py:151 | A whitespace character is a word boundary: `(s + c + t).split()` is `s.split() + t.split()`. |
| Strings.SplitWord | files/find_common_authors.py:151 | A word followed by nothing or by whitespace is split off whole, as the first word. |
| Strings.SplitKeepsCharacters | files/find_common_authors.py:151 | The words of `str.split()`, run together, are the input with its whitespace removed: no non-whitespace character is lost or reordered. |
| Strings.SplitJoin | files/find_common_authors.py:151 | Splitting undoes joining with single spaces. |
| Strings.JoinShape | files/find_common_authors.py:151 | Joining words gives single-spaced text, empty exactly when there are no words, and lower-case when the words are. |
| Normalizer.NormalizeAuthorName | files/find_common_authors.py:144-151 | Definition: `""` for an empty name, otherwise the lower-cased name's words joined with single spaces. |
| Normalizer.NormalizeShape | files/find_common_authors.py:144-151 | For an empty name the result is `""`. Otherwise:<br>• it has no upper-case letter;<br>• its only whitespace is the plain space;<br>• it has no space at either end and no two adjacent spaces;<br>• its words are those of the lower-cased input. |
| Normalizer.NormalizeIdempotent | files/find_common_authors.py:148-151 | Normalising twice gives the same result as normalising once. |
| Normalizer.NormalizeKeepsCharacters | files/find_common_authors.py:151 | Normalisation keeps every non-whitespace character of the name, lower-cased and in order, and removes only whitespace. |
| Normalizer.SpaceRunSameKey | files/find_common_authors.py:151 | Replacing one whitespace character by two leaves the key unchanged, so any run of whitespace counts as one separator. |
| Normalizer.LeadingSpaceSameKey | files/find_common_authors.py:151 | Leading whitespace does not change the key. |
| Normalizer.TrailingSpaceSameKey | files/find_common_authors.py:151 | Trailing whitespace does not change the key. |
| Normalizer.CaseSameKey | files/find_common_authors.py:151 | Names equal up to the case of their letters get the same key. |
| Classifier.IsPoplPaper | files/find_common_authors.py:154-171 | Definition: either the venue contains "POPL" but neither "PACMPL" nor "@", or the venue contains "Proc. ACM Program. Lang" or "PACMPL" and the number is "POPL". |
| Classifier.IsPoplPrimary | files/find_common_authors.py:192-195 | Definition: the venue has no "@" and the type is not "Editorship". |
| Classifier.IsIclrMain | files/find_common_authors.py:266-269 | Definition: the type is not "Editorship" and the venue contains neither "Workshop" nor "Tiny". |
| Classifier.IclrFilter | files/find_common_authors.py:266-269 | Definition: the records satisfying `IsIclrMain`, in input order. |
| Classifier.PacmplDecidedByNumber | files/find_common_authors.py:159-171 | If the venue contains "PACMPL", the record is a POPL paper exactly when its number is "POPL". |
| Classifier.JournalDecidedByNumber | files/find_common_authors.py:166-171 | If the venue has the long journal label and no "POPL", the record is a POPL paper exactly when its number is "POPL". |
| Classifier.ConferenceDecidedByVenue | files/find_common_authors.py:162-164 | With neither journal label, the record is a POPL paper exactly when the venue contains "POPL" and no "@". The number is ignored. |
| Classifier.JournalExamples | files/find_common_authors.py:154-171 | A "Proc. ACM Program. Lang." record with number POPL is a POPL paper; the same record with number ICFP is not. |
| Classifier.IclrFilterExact | files/find_common_authors.py:266-269 | The ICLR filter keeps exactly the non-editorship records whose venue has no "Workshop" and no "Tiny". It keeps each as often as it occurs, in input order, and distributes over concatenation. |
| Classifier.IclrWorkshopExcluded | files/find_common_authors.py:266-269 | Workshop, tiny-paper and editorship records are never kept. |
| Collector.TitleOf | files/find_common_authors.py:215 | Definition of `pub.get("title", "Unknown")`, also used at line 276. |
| Collector.KeyOf | files/find_common_authors.py:217 | Definition: the pid when it is present and non-empty, otherwise the normalised name. |
| Collector.PaperOf | files/find_common_authors.py:213-225 | Definition: the paper dict built for a record whose extracted name is present and non-empty, otherwise nothing. |
| Collector.PaperOfExact | files/find_common_authors.py:213-225 | A record yields a paper exactly when its extracted name is present and non-empty. The paper has:<br>• that name and its normalisation;<br>• the extracted pid;<br>• the title, or "Unknown";<br>• the loop year and the venue tag. |
| Collector.Papers | files/find_common_authors.py:212-225 | Definition: the papers the record loop of one year appends, one for each record with a non-empty first author, in record order. |
| Collector.PapersDated | files/find_common_authors.py:212-225 | One year yields at most one paper per record. Every paper has that year, that venue and a well-formed name. |
| Collector.PapersAppend | files/find_common_authors.py:212-225 | The papers of concatenated records are the concatenation of their papers: each record contributes its own paper once, or nothing. |
| Collector.PidDecidesKey | files/find_common_authors.py:213-217 | For any shape of author field, including a single object: if the first author is an object with a non-empty `@pid`, and its `text` is absent or non-empty, the record is kept under that pid, whatever the name's spelling. |
| Collector.NameDecidesKey | files/find_common_authors.py:213-217 | For any shape of author field: if the extracted name `n` is non-empty and the pid is None (a string author) or `""` (an object without `@pid`, or with an empty one), the record is kept under the normalised `n`. |
| Collector.Group | files/find_common_authors.py:178-225 | Definition: the `defaultdict(list)` after appending the papers one by one. It has one entry per key among the papers, holding that key's papers in order. |
| Collector.SelectEmpty | files/find_common_authors.py:218 | An index entry is empty exactly when no paper has that key, so every key present maps to a non-empty list. |
| Collector.Append | files/find_common_authors.py:218 | Definition: `author_papers[key].append(paper)`, which creates an empty list for a new key. |
| Collector.GroupSnoc | files/find_common_authors.py:218-225 | `author_papers[key].append(paper)` on the index of `ps` gives the index of `ps + [paper]`. |
| Collector.GroupSize | files/find_common_authors.py:369 | `len(author_papers)` is the number of distinct keys among the collected papers. |
| Collector.GroupExactlyOnce | files/find_common_authors.py:212-225 | Each paper is stored under its own key as often as it was produced, and under no other key. |
| Collector.SelectSorted | files/find_common_authors.py:183-225 | Taking one key's papers from a year-ordered sequence keeps them in year order. |
| Collector.GroupInvariant | files/find_common_authors.py:183-225 | For an index grouped from collected papers:<br>• every list is non-empty;<br>• every paper under `k` has key `k`, the index's venue, a year in 2016..2025 and a well-formed name;<br>• every list is in year order. |
| Collector.NeedsToc | files/find_common_authors.py:199 | Definition: the filtered stream of the year is empty and the year is at least 2018. |
| Collector.PoplYear | files/find_common_authors.py:189-208 | Definition: the POPL entries of PACMPL volume `year - 2016` when the fallback fires, otherwise the filtered stream. |
| Collector.PoplPapers | files/find_common_authors.py:183-225 | Definition: the papers `fetch_popl_data` appends for the years 2016..hi, year by year. |
| Collector.IclrPapers | files/find_common_authors.py:240-286 | Definition: the papers `fetch_iclr_data` appends for the years 2016..hi, year by year. |
| Collector.TocVolumes | files/find_common_authors.py:198-204 | Definition: the PACMPL volumes requested for the years 2016..hi, in request order. |
| Collector.PoplYearExact | files/find_common_authors.py:189-208 | The records kept for a POPL year, with multiplicity, are:<br>• when the fallback fires: the `is_popl_paper` records of volume `year - 2016`;<br>• otherwise: the primary records of the stream. |
| Collector.PoplPapersCollected | files/find_common_authors.py:183-225 | The POPL papers for 2016..hi are well-formed, all tagged POPL, dated 2016..hi, and in year order. |
| Collector.IclrPapersCollected | files/find_common_authors.py:240-286 | The ICLR papers satisfy the same invariant. |
| Collector.TocVolumesExact | files/find_common_authors.py:198-204 | Volume `y - 2016` is requested exactly for the years whose filtered stream is empty and which are at least 2018. Each is requested once, in increasing order, and no other volume is requested. |
| Collector.IclrFailedYear | files/find_common_authors.py:240-286 | A year whose ICLR query returned nothing contributes no paper. |
| Collector.AddPaper | files/find_common_authors.py:213-225 | One record-loop step: the index becomes the grouping of the papers so far plus this record's paper, if it has one. |
| Collector.AddPapers | files/find_common_authors.py:212-225 | The record loop adds exactly the papers of the named records, in order. |
| Collector.PrimaryRecords | files/find_common_authors.py:190-196 | The loop keeps exactly the records with no "@" in the venue that are not editorships, in order. |
| Collector.PacmplPoplRecords | files/find_common_authors.py:206-208 | The loop keeps exactly the `is_popl_paper` records of the volume, in order. |
| Collector.PoplPublications | files/find_common_authors.py:186-208 | Gives the POPL records of one year, and the volume `year - 2016` exactly when the fallback fires. |
| Collector.CollectPoplYear | files/find_common_authors.py:183-228 | One year-loop step: from the index and volume list of years 2016..year-1, it produces those of 2016..year. |
| Collector.CollectPopl | files/find_common_authors.py:174-229 | `fetch_popl_data` returns the grouping of all POPL papers for 2016..2025, and the volumes requested. |
| Collector.CollectIclrYear | files/find_common_authors.py:240-288 | One year-loop step: from the index of years 2016..year-1, it produces the index of 2016..year. |
| Collector.CollectIclr | files/find_common_authors.py:232-290 | `fetch_iclr_data` returns the grouping of all ICLR papers for 2016..2025. |
| Matcher.ProgressStep | files/find_common_authors.py:305-319 | Appending the entry of one more common key keeps:<br>• every built entry matched to both indexes;<br>• the keys seen plus the keys left equal to the intersection;<br>• distinct keys. |
| Matcher.CommonEntries | files/find_common_authors.py:297-319 | The unsorted list has one entry per key of the intersection and no other key. Each entry's lists equal the indexes' lists, its counts are their lengths, and its name is that of the first POPL paper. |
| Matcher.Total | files/find_common_authors.py:322 | Definition of the sort key `popl_count + iclr_count`. |
| Matcher.Insert | files/find_common_authors.py:322 | Definition: places an entry after the leading entries whose total is at least its own. This is the insertion step of the model of `sort(reverse=True)`. |
| Matcher.InsertCount | files/find_common_authors.py:322 | Insertion adds exactly one occurrence of the entry and loses none. |
| Matcher.InsertSorted | files/find_common_authors.py:322 | Insertion into a list ordered by non-increasing total keeps it ordered. |
| Matcher.InsertDistinct | files/find_common_authors.py:322 | Inserting an entry with a new key keeps the keys distinct. |
| Matcher.SameKeys | files/find_common_authors.py:322 | Sorting keeps the set of keys. |
| Matcher.SortingStep | files/find_common_authors.py:322 | One insertion keeps the sort loop's invariant: a permutation of the prefix, ordered, with distinct keys. |
| Matcher.SortByTotal | files/find_common_authors.py:322 | `common.sort(key=total, reverse=True)` gives a permutation of its input, ordered by non-increasing total, and keeps distinct keys. |
| Matcher.DistinctKeysCount | files/find_common_authors.py:305-319 | A list with distinct keys has as many keys as entries. |
| Matcher.FindCommonAuthors | files/find_common_authors.py:293-324 | `find_common_authors` returns exactly one entry per common key, built from both lists, and one entry per key of the intersection. The list is empty exactly when the intersection is, and it is ordered by non-increasing total. |
| Pipeline.ResolveMatches | files/find_common_authors.py:368-378 | Each matched entry holds all papers of its key at each venue, non-empty and in year order. The matched keys are those with papers at both venues. |
| Pipeline.Analyze | files/find_common_authors.py:361-378 | `main` reports:<br>• the number of distinct POPL keys and the number of distinct ICLR keys;<br>• the PACMPL volumes requested;<br>• the matched entries, resolved against the collected papers, with distinct keys and ordered by total. |

## Left out

- The DBLP queries `fetch_dblp_by_toc` and `fetch_dblp_by_stream` (lines 22-114) are left out:
  - they are HTTP, JSON decoding, pagination with sleeps, and exception handling;
  - the model takes their results as the functions `stream(year)` and `toc(volume)`;
  - a failed request that returns `[]` or a partial list is just another input.
- The `time.sleep` calls and all progress `print`s are left out: they only pace requests and write to the console.
- `print_results` (lines 327-358) and the file writing in `main` (lines 384-409) are left out: they are output only. Their per-author `sorted(..., key=year)` would not change the lists, because `Collector.GroupInvariant` proves each list is already in year order.
- The ICLR key-prefix filter at lines 255-263 is not modelled: its `iclr_pubs` is overwritten at line 266 before it is read.
- The literal example `"  Alice   B. Smith "` and `"alice b. smith"` is not proved as such. It follows from `Normalizer.LeadingSpaceSameKey`, `TrailingSpaceSameKey`, `SpaceRunSameKey` and `CaseSameKey`, but the verifier runs out of resource on the string-literal equalities that chaining them needs.
- Non-ASCII text: lowercasing and whitespace splitting are ASCII only. Python's Unicode `str.lower` and `str.split` are not modelled.
- JSON values of unexpected types are not modelled, except where noted below:
  - `venue`, `type`, `number`, `title`, `text` and `@pid` are strings, or absent with the code's default; null, numbers and lists in them are not modelled.
  - `authors` is an object or absent. Any other value would make `.get` raise at line 122, and that is not modelled.
  - `authors.author` is absent, an object, a list or a string. A null, `false` or `0` there gives (None, None) at line 128; any other number raises at line 131. Neither is modelled.
  - An author-list element that is neither string nor object is `Other`.
- `Matcher.SortByTotal`: Python's Timsort is modelled as insertion sort. The contract promises only what the source promises: a permutation, ordered by total. The relative order of entries with equal totals is not promised, because the entries come from a set whose iteration order is unspecified.
- `Matcher.CommonEntries`: the set's iteration order is modelled as an arbitrary choice, so nothing is stated about the order of the unsorted list.
- Identity keys are plain strings, as in the code. A person id that happens to equal some other author's normalised name shares that author's entry. The model keeps this collision rather than introducing a tagged key.
