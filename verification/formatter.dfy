/** `build_outline(headings, title)` of src/formatter.py, up to the
    dictionary it hands to `json.dumps`. */
module Formatter {
  import opened Wrappers
  import opened Levels

  /** A heading as the formatter receives it: the three keys it reads
      plus whatever other keys the producer attached. */
  datatype Heading = Heading(level: string, text: string, page: int, extra: map<string, string>)

  /** `{'level': ..., 'text': ..., 'page': ...}`. */
  datatype Item = Item(level: string, text: string, page: int)

  /** `{'title': ..., 'outline': [...]}`: exactly these two keys. */
  datatype Record = Record(title: string, outline: seq<Item>)

  /** `title or ''`: `None` and the empty string both give "". */
  function TitleOrEmpty(title: Option<string>): (r: string)
    ensures title.Some? && title.value != [] ==> r == title.value
    ensures title.None? || title.value == [] ==> r == []
  {
    match title
    case Some(t) => t
    case None => ""
  }

  function Items(headings: seq<Heading>): (r: seq<Item>)
    ensures |r| == |headings|
    ensures forall i :: 0 <= i < |headings| ==>
      r[i] == Item(headings[i].level, headings[i].text, headings[i].page)
  {
    if |headings| == 0 then []
    else [Item(headings[0].level, headings[0].text, headings[0].page)] + Items(headings[1..])
  }

  /** The record: title by truthiness, no title given meaning "", and one
      item per heading in the same order with only `level`, `text` and
      `page` kept. */
  function BuildRecord(headings: seq<Heading>, title: Option<string> := None): (r: Record)
    ensures r.title == (if title.Some? && title.value != [] then title.value else [])
    ensures |r.outline| == |headings|
    ensures forall i :: 0 <= i < |headings| ==>
      r.outline[i] == Item(headings[i].level, headings[i].text, headings[i].page)
  {
    Record(TitleOrEmpty(title), Items(headings))
  }

  /** Only `level`, `text` and `page` reach the record: headings that
      agree on those give the same record whatever else they carry. */
  lemma RecordIgnoresExtra(a: seq<Heading>, b: seq<Heading>, title: Option<string>)
    requires |a| == |b|
    requires forall i :: 0 <= i < |a| ==>
      a[i].level == b[i].level && a[i].text == b[i].text && a[i].page == b[i].page
    ensures BuildRecord(a, title) == BuildRecord(b, title)
  {
  }

  /** An outline entry as a heading, its level rendered `H<k>`. */
  function AsHeading(e: Entry): Heading {
    Heading(LevelName(e.level), e.text, e.page, map[])
  }

  /** Formatting an outline loses nothing: every item reads back as the
      entry it came from, the level parsing to the same rank. */
  lemma RecordKeepsEntries(entries: seq<Entry>, title: Option<string>)
    ensures var r := BuildRecord(seq(|entries|, i requires 0 <= i < |entries| => AsHeading(entries[i])), title);
      && |r.outline| == |entries|
      && forall i :: 0 <= i < |entries| ==>
           && ParseLevel(r.outline[i].level) == Some(entries[i].level)
           && r.outline[i].text == entries[i].text
           && r.outline[i].page == entries[i].page
  {
    forall i | 0 <= i < |entries| ensures ParseLevel(LevelName(entries[i].level)) == Some(entries[i].level) {
      LevelNameRoundTrip(entries[i].level);
    }
  }
}
