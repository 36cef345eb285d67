/**
 * The Tags property (main.py:78-87): the text of every tag without a `type`
 * (the manual tags), in the item's tag order.
 */
module Tags {
  import opened Wrappers
  import opened Zotero
  import Seqs

  /** Manual tags carry no `type`; automatic ones do. */
  predicate IsManual(t: Tag)
  {
    t.tagType.None?
  }

  function TagText(t: Tag): string
  {
    t.tag
  }

  /** The Tags list of an item with these tags. */
  function ManualTags(tags: seq<Tag>): seq<string>
  {
    Seqs.Select(tags, IsManual, TagText)
  }

  /** A text is in the Tags list iff some tag of the item has that text and no `type`. */
  lemma ManualTagsMember(tags: seq<Tag>, text: string)
    ensures text in ManualTags(tags) <==> exists t :: t in tags && t.tagType.None? && t.tag == text
  {
    Seqs.SelectMember(tags, IsManual, TagText, text);
    if exists t :: t in tags && t.tagType.None? && t.tag == text {
      var t :| t in tags && t.tagType.None? && t.tag == text;
      var i :| 0 <= i < |tags| && tags[i] == t;
      assert IsManual(tags[i]) && TagText(tags[i]) == text;
    }
  }

  /**
   * The Tags list keeps source order and the tag text verbatim: entry `k`
   * is the text of the `k`-th manual tag, and every manual tag has an entry.
   */
  lemma ManualTagsInOrder(tags: seq<Tag>)
    ensures |ManualTags(tags)| == |Seqs.Kept(tags, IsManual)|
    ensures Seqs.Increasing(Seqs.Kept(tags, IsManual))
    ensures forall k :: 0 <= k < |ManualTags(tags)| ==>
      Seqs.Kept(tags, IsManual)[k] < |tags|
      && tags[Seqs.Kept(tags, IsManual)[k]].tagType.None?
      && ManualTags(tags)[k] == tags[Seqs.Kept(tags, IsManual)[k]].tag
    ensures forall i :: 0 <= i < |tags| && tags[i].tagType.None? ==> i in Seqs.Kept(tags, IsManual)
  {
    Seqs.KeptExactly(tags, IsManual);
    Seqs.SelectAt(tags, IsManual, TagText);
  }

  /** The tag loop of main.py:78-83. */
  method CollectTags(tags: seq<Tag>) returns (names: seq<string>)
    ensures names == ManualTags(tags)
  {
    names := [];
    for i := 0 to |tags|
      invariant names == ManualTags(tags[..i])
    {
      var tag := tags[i];
      assert tags[..i + 1][..i] == tags[..i];
      if tag.tagType.None? {
        names := names + [tag.tag];
      }
    }
    assert tags[..|tags|] == tags;
  }
}
