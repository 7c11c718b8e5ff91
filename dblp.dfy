/** The parts of a raw DBLP search hit (`hit["info"]`) that the matcher reads.
    JSON values are reduced to the shapes the code distinguishes. */
module Dblp {
  import opened Wrappers

  /** One element of the `authors.author` list. */
  datatype Entry =
    | Name(name: string)                                  // a bare JSON string
    | Person(text: Option<string>, pid: Option<string>)   // an object with optional "text" and "@pid"
    | Other                                               // any other JSON value

  /** The value found under `authors.author`. */
  datatype AuthorField =
    | Absent                                              // no "authors" or no "author": the default []
    | Single(text: Option<string>, pid: Option<string>)   // one author object instead of a list
    | Many(entries: seq<Entry>)                           // a JSON list
    | Bare(s: string)                                     // a JSON string, which Python iterates by character

  /** A raw publication record. An absent "venue", "type" or "number" reads
      as "", the code's default. The ICLR filter reads "type" without a
      default and so sees None; None and "" both differ from "Editorship",
      so it keeps the same records either way. "title" stays optional
      because its default is "Unknown". The record's "key" is not read by
      the live code. */
  datatype Pub = Pub(
    venue: string,
    pubType: string,
    number: string,
    title: Option<string>,
    authors: AuthorField)
}
