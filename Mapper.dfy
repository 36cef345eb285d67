/**
 * The per-item mapping of main.py:42-138: one Zotero item becomes the
 * Notion property set and the list of child blocks sent on creation.
 * The property set is a typed record; an optional property is `None`
 * exactly when the script leaves its key out of the `properties` dict.
 */
module Mapper {
  import opened Wrappers
  import opened Zotero
  import opened Citekey
  import opened Authors
  import opened Tags

  /** The two kinds of child block the script emits. */
  datatype Block = Heading2(text: string) | Paragraph(text: string)

  datatype Properties = Properties(
    citationKey: Option<string>,      // "Citation Key" (the page title)
    title: string,                    // "Title"
    publicationDate: Option<string>,  // "Publication Date", an ISO date
    authors: seq<string>,             // "Authors" (multi-select)
    tags: seq<string>,                // "Tags" (multi-select)
    zoteroKey: string,                // "Zotero: Key"
    zoteroVersion: int,               // "Zotero: Version"
    dateModified: string,             // "Zotero: Date Modified"
    dateAdded: string,                // "Zotero: Date Added"
    link: string,                     // "Zotero: Link"
    url: Option<string>)              // "URL"

  /** A mapped item; `warning` stands for the diagnostic the script prints when no citation key is found. */
  datatype Mapped = Mapped(properties: Properties, children: seq<Block>, warning: bool)

  /** The date parser raised on the item's `date`. */
  datatype MapError = UnparsableDate(date: string)

  /** Python truthiness of an optional string field: the key is present and the string is non-empty. */
  predicate Truthy(o: Option<string>)
  {
    o.Some? && o.value != ""
  }

  /** The children list: a heading and the abstract, whenever the item has an `abstractNote` key. */
  function AbstractBlocks(abstractNote: Option<string>): seq<Block>
  {
    match abstractNote
    case None => []
    case Some(a) => [Heading2("Abstract"), Paragraph(a)]
  }

  /**
   * The mapping of one item. `isoDate` stands for the date parser followed
   * by `isoformat()`; `None` means the parser raised.
   */
  function Project(item: Item, isoDate: string -> Option<string>): (r: Result<Mapped, MapError>)
    ensures r.Failure? <==> Truthy(item.date) && isoDate(item.date.value).None?
    ensures r.Failure? ==> r.error == UnparsableDate(item.date.value)
    ensures r.Success? ==>
      var p := r.value.properties;
      && (p.citationKey.Some? <==> exists q :: MarkerAt(item.extra, q))
      && p.citationKey == CitationKey(item.extra)
      && (r.value.warning <==> p.citationKey.None?)
      && (p.publicationDate.Some? <==> Truthy(item.date))
      && (Truthy(item.date) ==> p.publicationDate == isoDate(item.date.value))
      && (p.url.Some? <==> Truthy(item.url))
      && (Truthy(item.url) ==> p.url == item.url)
      && p.title == item.title
      && p.authors == AuthorsOf(item.creators)
      && p.tags == ManualTags(item.tags)
      && p.zoteroKey == item.key && p.zoteroVersion == item.version
      && p.dateModified == item.dateModified && p.dateAdded == item.dateAdded
      && p.link == item.link
      && (item.abstractNote.Some? ==>
            r.value.children == [Heading2("Abstract"), Paragraph(item.abstractNote.value)])
      && (item.abstractNote.None? ==> r.value.children == [])
  {
    if Truthy(item.date) && isoDate(item.date.value).None? then
      Failure(UnparsableDate(item.date.value))
    else
      var citationKey := CitationKey(item.extra);
      var properties := Properties(
        citationKey,
        item.title,
        if Truthy(item.date) then isoDate(item.date.value) else None,
        AuthorsOf(item.creators),
        ManualTags(item.tags),
        item.key,
        item.version,
        item.dateModified,
        item.dateAdded,
        item.link,
        if Truthy(item.url) then item.url else None);
      Success(Mapped(properties, AbstractBlocks(item.abstractNote), citationKey.None?))
  }

  /**
   * The mapping as main.py:42-138 performs it: the fields in the script's
   * order, with the author and tag loops.
   */
  method MapItem(item: Item, isoDate: string -> Option<string>) returns (r: Result<Mapped, MapError>)
    ensures r == Project(item, isoDate)
  {
    var citationKey := CitationKey(item.extra);
    var warning := citationKey.None?;
    var publicationDate: Option<string> := None;
    if item.date.Some? && item.date.value != "" {
      publicationDate := isoDate(item.date.value);
      if publicationDate.None? {
        return Failure(UnparsableDate(item.date.value));
      }
    }
    var authors := CollectAuthors(item.creators);
    var tags := CollectTags(item.tags);
    var url: Option<string> := None;
    if item.url.Some? && item.url.value != "" {
      url := item.url;
    }
    var children: seq<Block> := [];
    if item.abstractNote.Some? {
      children := children + [Heading2("Abstract")];
      children := children + [Paragraph(item.abstractNote.value)];
    }
    var properties := Properties(
      citationKey, item.title, publicationDate, authors, tags, item.key, item.version,
      item.dateModified, item.dateAdded, item.link, url);
    assert children == AbstractBlocks(item.abstractNote);
    r := Success(Mapped(properties, children, warning));
  }
}
