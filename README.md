# zotero2notion: a Dafny model of the one-way Zotero → Notion sync

`main.py` copies the top-level items of a Zotero library into a Notion
database. It indexes the pages already in the database by their
"Zotero: Key" property, maps every Zotero item to a Notion property set and
a list of child blocks, and then creates a page for an item whose key is not
indexed, updates the indexed page when the item's version differs from the
one stored on the page, and otherwise does nothing.

The model keeps that structure:

- `Zotero` — the item, creator and tag records as the script reads them; an
  `Option` field is `None` when the item's dictionary lacks that key.
- `Citekey` — the search for `Citation Key: (\S*)` in `extra`, as pure
  functions (the script calls `re.search`, it has no loop of its own), with
  `\S` read as "not a Python whitespace character".
- `Authors`, `Tags` — the author-label and manual-tag loops, each as a
  method proved equal to a specification function built on the ordered
  selection of `Seqs`.
- `Mapper` — the typed property set, the child blocks, and the per-item
  mapping (`Project`, and `MapItem`, which follows the script's steps).
- `MirrorIndex` — the index built from the Notion records, including the
  `[0]` errors on empty segment lists.
- `Reconcile` — the create / update / no-op decision, the per-item loop,
  which appends the `pages.create` and `pages.update` calls to a log of
  actions, and the whole run.

The date parser (`dateutil.parser.parse(...).isoformat()`) is a parameter
`isoDate: string -> Option<string>`, where `None` means the parser raised.
The script maps an item before it decides what to do with it, so a date the
parser rejects stops the run even for an item that needs no write. The
actions already issued stay in the log. In `existing_entries[k] = v`,
Python evaluates the value before the key. The citation key's `[0]` is
therefore read before the Zotero key's `[0]`, and a record with both lists
empty reports `EmptyCitationKey`.

## Model

| member | source | states |
|---|---|---|
| `Citekey.FindMarker` | main.py:47 | the result is the leftmost occurrence of `Citation Key: ` at or after the start position, or `None` when there is none |
| `Citekey.TokenFrom` | main.py:47 | the result is the maximal run of non-whitespace characters starting at the position (what the greedy `(\S*)` captures), possibly empty |
| `Citekey.CitationKey` | main.py:47-53 | a key is present iff `extra` contains `Citation Key: `; when present it is a maximal non-whitespace run right after the first occurrence |
| `Citekey.CitationKeyIs` | main.py:47-53 | conversely, any maximal non-whitespace run after the first marker is exactly the key returned |
| `Citekey.CitationKeyExample` | main.py:47-51 | `"Citation Key: smith2020 Other: x"` yields `smith2020` |
| `Citekey.CitationKeyMayBeEmpty` | main.py:47-51 | a marker followed by whitespace yields a present but empty key |
| `Authors.LabelLayout` | main.py:67-71 | the label is name, firstName, middleName, lastName in that order, each only if present, each of the first three followed by exactly one space and lastName by none |
| `Authors.LabelTrailingSpace` | main.py:68-71 | without lastName but with some other part, the label ends in a space |
| `Authors.LabelEndsWithLastName` | main.py:68-71 | with a lastName, the label ends in that lastName |
| `Authors.AuthorsInOrder` | main.py:64-72 | entry k of Authors is the label of the k-th creator whose type is "author", in creator order, and every author creator has an entry |
| `Authors.NonAuthorsIgnored` | main.py:65-66 | inserting a non-author creator anywhere leaves the Authors list unchanged |
| `Authors.BuildLabel` | main.py:67-71 | the key-by-key loop yields the creator's label |
| `Authors.CollectAuthors` | main.py:64-76 | the creator loop yields the Authors list |
| `Tags.ManualTagsMember` | main.py:78-83 | a text is in Tags iff some tag of the item has that text and no `type` |
| `Tags.ManualTagsInOrder` | main.py:78-87 | entry k of Tags is the verbatim text of the k-th tag without `type`, in source order, and every such tag has an entry |
| `Tags.CollectTags` | main.py:78-87 | the tag loop yields the Tags list |
| `Mapper.Project` | main.py:44-138 | mapping fails iff the date is present, non-empty and unparsable. Otherwise: Citation Key is present iff `extra` holds the marker, and the warning is raised iff it is absent. Publication Date is present iff the date is present and non-empty. URL is present iff the url is present and non-empty. Title, Authors, Tags, Key, Version, both dates and Link are always set from the item. Children are the "Abstract" heading and the verbatim abstract when `abstractNote` is present, even if empty, and empty otherwise |
| `Mapper.MapItem` | main.py:42-138 | the step-by-step mapping returns exactly the projection of the item |
| `MirrorIndex.IndexFailure` | main.py:31-39 | building the index fails iff some record has an empty Zotero Key or Citation Key list; the error names the first such record and the list that raised, the citation key first |
| `MirrorIndex.IndexKeys` | main.py:31-39 | with well-formed records, the index's keys are exactly the records' first Zotero Key texts |
| `MirrorIndex.IndexLastWins` | main.py:32-39 | a record that no later record with the same key follows determines that key's page id, version and citation key |
| `MirrorIndex.BuildIndex` | main.py:31-39 | the loop yields the index, or the first error |
| `Reconcile.Decide` | main.py:141-150 | exactly one decision per item: create iff the key is not indexed, update of the indexed page iff it is indexed with a different version, no-op iff it is indexed with the same version |
| `Reconcile.SyncFailure` | main.py:41-62 | the pass stops iff some item's date cannot be parsed. It names the first such item, and the log then holds exactly the writes for the items before it |
| `Reconcile.SyncSound` | main.py:141-150 | every create is for an unindexed key. Every update targets the indexed page of its key, whose indexed version differs from the item's |
| `Reconcile.SyncComplete` | main.py:41-150 | in a pass that does not stop, each unindexed item gets a create with its properties and children, and each stale item gets an update of its indexed page with its properties |
| `Reconcile.SyncCount` | main.py:41-150 | in a pass that does not stop, the log's length is the number of items whose decision is not a no-op |
| `Reconcile.SyncInOrder` | main.py:41-150 | in a pass that does not stop, write k of the log is the create or update for the k-th item whose decision is not a no-op, so the writes follow item order, one per such item |
| `Reconcile.SyncIdempotent` | main.py:141-150 | when the index holds every item at its current version, nothing is written |
| `Reconcile.SyncExample` | main.py:141-150 | with k1 at version 3 and k2 at version 2 indexed, items k1@3 and k2@5 give a single update of k2's page |
| `Reconcile.CreatedWithoutCitationKeyBreaksIndex` | main.py:38 | a page created for an item without a citation key is stored with an empty title. Once that page is among the records, building the index fails before any write |
| `Reconcile.Reconcile` | main.py:41-150 | the item loop issues exactly the writes of the pass, and stops at the first mapping error |
| `Reconcile.Run` | main.py:31-150 | an index error stops the run before any write; otherwise the run is the pass over the items with the built index |

## Left out

- Reading `config.ini` and the credential constants (main.py:12-19): file I/O.
- Constructing the Notion and Zotero clients, `add_parameters`, `zot.top(limit=5)` and `notion.databases.query` (main.py:23-29): network calls into libraries that are not part of this model. The items and records are given input sequences. The script does not paginate, so neither does the model.
- The HTTP effects of `notion.pages.create` and `notion.pages.update` (main.py:142-150): modelled only as logged actions. The fixed parent database id is not recorded in a create action.
- `dateutil.parser.parse(...).isoformat()` (main.py:61): a foreign date parser, modelled as the parameter `isoDate`. The parser fills date parts missing from the string from the current date, so `isoDate` stands for the parser on the day of the run. No proved property constrains it.
- How Notion stores a created page: `StoredRecord` assumes that an absent or empty text becomes an empty segment list. Only `CreatedWithoutCitationKeyBreaksIndex` depends on this assumption.
- The diagnostic `print(item_data)` (main.py:53): modelled as the `warning` flag of a mapped item. The script prints it before parsing the date (main.py:61), but a mapping that fails on the date carries no warning flag.
- The JSON shape of the Notion payload (rich-text segments, `type` fields, annotations): reduced to typed fields, each optional property as an `Option`.
- Missing dictionary keys other than the optional item fields (for example no `extra`, no `creatorType`, no "Zotero: Version" property), and non-string values where the script concatenates strings: each would raise `KeyError` or `TypeError`; the model's records always carry those fields with the expected types. Only the `[0]` on an empty segment list is modelled as an error.
- A Notion number that is not an integer: "Zotero: Version" is modelled as an optional integer.
- Pagination, a pass that flags Notion pages whose Zotero item is gone, the filtering of the `_tablet` and `_tablet_modified` housekeeping tags, the truncation of long abstracts, and de-duplication of author labels: `main.py` does none of these. The model follows the script, so the abstract is copied verbatim, every tag without a `type` is kept, and no deletion pass exists.
