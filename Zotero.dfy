/**
 * The Zotero side of the sync: one top-level item as the script reads it from
 * `item["data"]`, together with the item's `links.alternate.href`.
 * An `Option` field is `None` exactly when the item's dictionary lacks that key.
 */
module Zotero {
  import opened Wrappers

  /** One entry of `creators`; each name part is present only when the creator carries that key. */
  datatype Creator = Creator(
    creatorType: string,
    name: Option<string>,
    firstName: Option<string>,
    middleName: Option<string>,
    lastName: Option<string>)

  /** One entry of `tags`: automatic tags carry a numeric `type`, manual tags carry none. */
  datatype Tag = Tag(tag: string, tagType: Option<int>)

  datatype Item = Item(
    key: string,
    version: int,
    title: string,
    extra: string,
    date: Option<string>,
    url: Option<string>,
    abstractNote: Option<string>,
    creators: seq<Creator>,
    tags: seq<Tag>,
    dateModified: string,
    dateAdded: string,
    link: string)
}
