/**
 * The reconciliation pass (main.py:41-150): every item is mapped, then
 * created, updated or left alone according to the index of existing pages.
 * The calls `notion.pages.create` and `notion.pages.update` become actions
 * appended to a log, in the order the script issues them.
 */
module Reconcile {
  import opened Wrappers
  import opened Zotero
  import opened Mapper
  import opened MirrorIndex
  import Seqs

  datatype Decision = Create | Update(pageId: string) | Skip

  /** A write to Notion. An update carries the property set only, never children. */
  datatype Action =
    | CreatePage(properties: Properties, children: seq<Block>)
    | UpdatePage(pageId: string, properties: Properties)

  /** Why a run stopped: the index could not be built, or mapping item `at` raised. */
  datatype SyncError = IndexFailed(indexError: IndexError) | MappingFailed(at: nat, mapError: MapError)

  /** The writes issued so far and, if the run stopped early, why. */
  datatype Outcome = Outcome(log: seq<Action>, failure: Option<SyncError>)

  /**
   * main.py:141-150: create when the key is not indexed, update the indexed
   * page when the version differs from the indexed one (a null indexed
   * version always differs), do nothing otherwise.
   */
  function Decide(index: Index, key: string, version: int): (d: Decision)
    ensures d.Create? <==> key !in index
    ensures d.Update? <==> key in index && index[key].version != Some(version)
    ensures d.Skip? <==> key in index && index[key].version == Some(version)
    ensures d.Update? ==> d.pageId == index[key].pageId
  {
    if key !in index then Create
    else if Some(version) != index[key].version then Update(index[key].pageId)
    else Skip
  }

  /** The calls made for one mapped item. */
  function Emit(d: Decision, m: Mapped): seq<Action>
  {
    match d
    case Create => [CreatePage(m.properties, m.children)]
    case Update(p) => [UpdatePage(p, m.properties)]
    case Skip => []
  }

  /** The pass over `items` in order; the first item whose mapping raises ends it. */
  function Sync(index: Index, items: seq<Item>, isoDate: string -> Option<string>): Outcome
  {
    if items == [] then Outcome([], None)
    else
      var n := |items| - 1;
      var before := Sync(index, items[..n], isoDate);
      if before.failure.Some? then before
      else
        match Project(items[n], isoDate)
        case Failure(e) => Outcome(before.log, Some(MappingFailed(n, e)))
        case Success(m) => Outcome(before.log + Emit(Decide(index, items[n].key, items[n].version), m), None)
  }

  /** Whether the item leads to a write. */
  predicate NeedsWrite(index: Index, item: Item)
  {
    !Decide(index, item.key, item.version).Skip?
  }

  function Writes(index: Index): Item -> bool
  {
    (item: Item) => NeedsWrite(index, item)
  }

  /** Every write is justified by the index: creates for unindexed keys, updates of the indexed page for stale versions. */
  predicate Justified(index: Index, a: Action)
  {
    match a
    case CreatePage(p, _) => p.zoteroKey !in index
    case UpdatePage(page, p) =>
      && p.zoteroKey in index
      && page == index[p.zoteroKey].pageId
      && index[p.zoteroKey].version != Some(p.zoteroVersion)
  }

  /** Once a prefix has stopped, the whole pass stops with the same outcome. */
  lemma {:induction false} FailureSticks(index: Index, items: seq<Item>, isoDate: string -> Option<string>, n: nat)
    requires n <= |items|
    requires Sync(index, items[..n], isoDate).failure.Some?
    ensures Sync(index, items, isoDate) == Sync(index, items[..n], isoDate)
    decreases |items| - n
  {
    if n < |items| {
      assert items[..n + 1][..n] == items[..n];
      FailureSticks(index, items, isoDate, n + 1);
    } else {
      assert items[..n] == items;
    }
  }

  /**
   * The pass stops iff some item's mapping raises; it then names the first
   * such item, and the log holds exactly the writes for the items before it.
   */
  lemma {:induction false} SyncFailure(index: Index, items: seq<Item>, isoDate: string -> Option<string>)
    ensures Sync(index, items, isoDate).failure.None? <==>
      forall i :: 0 <= i < |items| ==> Project(items[i], isoDate).Success?
    ensures Sync(index, items, isoDate).failure.Some? ==>
      var e := Sync(index, items, isoDate).failure.value;
      && e.MappingFailed?
      && e.at < |items|
      && Project(items[e.at], isoDate) == Failure(e.mapError)
      && (forall j :: 0 <= j < e.at ==> Project(items[j], isoDate).Success?)
      && Sync(index, items, isoDate).log == Sync(index, items[..e.at], isoDate).log
  {
    if items != [] {
      var n := |items| - 1;
      var t := items[..n];
      SyncFailure(index, t, isoDate);
      assert forall i :: 0 <= i < n ==> t[i] == items[i];
      var before := Sync(index, t, isoDate);
      if before.failure.Some? {
        var e := before.failure.value;
        assert items[..e.at] == t[..e.at];
      } else if Project(items[n], isoDate).Failure? {
        assert items[..n] == t;
      }
    }
  }

  /** Every logged write is justified by the index. */
  lemma {:induction false} SyncSound(index: Index, items: seq<Item>, isoDate: string -> Option<string>)
    ensures forall a :: a in Sync(index, items, isoDate).log ==> Justified(index, a)
  {
    if items != [] {
      var n := |items| - 1;
      SyncSound(index, items[..n], isoDate);
    }
  }

  /**
   * A pass that does not stop writes for every item that needs it: a create
   * with the mapped properties and children for an unindexed key, an update
   * of the indexed page with the mapped properties for a stale version.
   */
  lemma {:induction false} SyncComplete(index: Index, items: seq<Item>, isoDate: string -> Option<string>, i: nat)
    requires Sync(index, items, isoDate).failure.None?
    requires i < |items|
    ensures Project(items[i], isoDate).Success?
    ensures items[i].key !in index ==>
      var m := Project(items[i], isoDate).value;
      CreatePage(m.properties, m.children) in Sync(index, items, isoDate).log
    ensures items[i].key in index && index[items[i].key].version != Some(items[i].version) ==>
      var m := Project(items[i], isoDate).value;
      UpdatePage(index[items[i].key].pageId, m.properties) in Sync(index, items, isoDate).log
  {
    var n := |items| - 1;
    var t := items[..n];
    SyncFailure(index, items, isoDate);
    if i < n {
      assert t[i] == items[i];
      SyncComplete(index, t, isoDate, i);
    }
  }

  /** A pass that does not stop writes once per item that needs a write, and never otherwise. */
  lemma {:induction false} SyncCount(index: Index, items: seq<Item>, isoDate: string -> Option<string>)
    requires Sync(index, items, isoDate).failure.None?
    ensures |Sync(index, items, isoDate).log| == |Seqs.Kept(items, Writes(index))|
  {
    if items != [] {
      var n := |items| - 1;
      SyncCount(index, items[..n], isoDate);
      assert Writes(index)(items[n]) == NeedsWrite(index, items[n]);
    }
  }

  /**
   * In a pass that does not stop, write `k` of the log is the write for the
   * `k`-th item that needs one: the writes follow item order, one per such item.
   */
  lemma {:induction false} SyncInOrder(index: Index, items: seq<Item>, isoDate: string -> Option<string>)
    requires Sync(index, items, isoDate).failure.None?
    ensures |Sync(index, items, isoDate).log| == |Seqs.Kept(items, Writes(index))|
    ensures forall k :: 0 <= k < |Seqs.Kept(items, Writes(index))| ==>
      var i := Seqs.Kept(items, Writes(index))[k];
      && i < |items|
      && Project(items[i], isoDate).Success?
      && [Sync(index, items, isoDate).log[k]]
         == Emit(Decide(index, items[i].key, items[i].version), Project(items[i], isoDate).value)
  {
    SyncCount(index, items, isoDate);
    if items != [] {
      var n := |items| - 1;
      var t := items[..n];
      SyncInOrder(index, t, isoDate);
      Seqs.KeptExactly(t, Writes(index));
      assert forall i :: 0 <= i < n ==> t[i] == items[i];
      var m := Project(items[n], isoDate).value;
      var emit := Emit(Decide(index, items[n].key, items[n].version), m);
      assert Sync(index, items, isoDate).log == Sync(index, t, isoDate).log + emit;
      assert Writes(index)(items[n]) <==> |emit| == 1;
      assert Seqs.Kept(items, Writes(index))
        == Seqs.Kept(t, Writes(index)) + (if Writes(index)(items[n]) then [n] else []);
    }
  }

  /** When the index already holds every item at its current version, the pass writes nothing. */
  lemma {:induction false} SyncIdempotent(index: Index, items: seq<Item>, isoDate: string -> Option<string>)
    requires forall i :: 0 <= i < |items| ==>
      items[i].key in index && index[items[i].key].version == Some(items[i].version)
    ensures Sync(index, items, isoDate).log == []
  {
    if items != [] {
      var n := |items| - 1;
      var t := items[..n];
      assert forall i :: 0 <= i < n ==> t[i] == items[i];
      SyncIdempotent(index, t, isoDate);
    }
  }

  /** An item already at the indexed version is skipped; one with a newer version updates its page. */
  lemma SyncExample(isoDate: string -> Option<string>)
    ensures
      var index := map["k1" := Entry("page-1", Some(3), "a2001"), "k2" := Entry("page-2", Some(2), "b2002")];
      var a := Item("k1", 3, "A", "", None, None, None, [], [], "", "", "");
      var b := Item("k2", 5, "B", "", None, None, None, [], [], "", "", "");
      Sync(index, [a, b], isoDate) == Outcome([UpdatePage("page-2", Project(b, isoDate).value.properties)], None)
  {
    var index := map["k1" := Entry("page-1", Some(3), "a2001"), "k2" := Entry("page-2", Some(2), "b2002")];
    var a := Item("k1", 3, "A", "", None, None, None, [], [], "", "", "");
    var b := Item("k2", 5, "B", "", None, None, None, [], [], "", "", "");
    assert [a][..0] == [];
    assert Project(a, isoDate).Success? && Decide(index, "k1", 3) == Skip;
    assert Sync(index, [a], isoDate) == Outcome([], None);
    assert [a, b][..1] == [a];
    assert Project(b, isoDate).Success? && Decide(index, "k2", 5) == Update("page-2");
  }

  /**
   * The "Zotero: Key" and "Citation Key" segments Notion returns for a page
   * created with these properties: a text that is absent or empty is stored
   * as no segment at all.
   */
  function StoredRecord(pageId: string, p: Properties): Record
  {
    Record(pageId, Segments(Some(p.zoteroKey)), Some(p.zoteroVersion), Segments(p.citationKey))
  }

  function Segments(text: Option<string>): seq<string>
  {
    if text.Some? && text.value != "" then [text.value] else []
  }

  /**
   * A page created for an item without a citation key has an empty title, so
   * the next run, which reads that title's first segment, cannot build its index.
   */
  lemma CreatedWithoutCitationKeyBreaksIndex(
    records: seq<Record>, index: Index, items: seq<Item>, isoDate: string -> Option<string>,
    k: nat, pageId: string)
    requires k < |Sync(index, items, isoDate).log|
    requires Sync(index, items, isoDate).log[k].CreatePage?
    requires Sync(index, items, isoDate).log[k].properties.citationKey.None?
    ensures IndexOf(records + [StoredRecord(pageId, Sync(index, items, isoDate).log[k].properties)]).Failure?
  {
    var rs := records + [StoredRecord(pageId, Sync(index, items, isoDate).log[k].properties)];
    IndexFailure(rs);
    assert !WellFormed(rs[|records|]);
  }

  /** The item loop of main.py:41-150. */
  method Reconcile(index: Index, items: seq<Item>, isoDate: string -> Option<string>)
    returns (log: seq<Action>, failure: Option<SyncError>)
    ensures Outcome(log, failure) == Sync(index, items, isoDate)
  {
    log := [];
    for i := 0 to |items|
      invariant Sync(index, items[..i], isoDate) == Outcome(log, None)
    {
      var item := items[i];
      assert items[..i + 1][..i] == items[..i];
      var mapped := MapItem(item, isoDate);
      if mapped.Failure? {
        FailureSticks(index, items, isoDate, i + 1);
        return log, Some(MappingFailed(i, mapped.error));
      }
      var m := mapped.value;
      if item.key !in index {
        log := log + [CreatePage(m.properties, m.children)];
      } else if Some(item.version) != index[item.key].version {
        log := log + [UpdatePage(index[item.key].pageId, m.properties)];
      }
    }
    assert items[..|items|] == items;
    failure := None;
  }

  /** The whole run: build the index from the Notion records, then reconcile the Zotero items. */
  method Run(records: seq<Record>, items: seq<Item>, isoDate: string -> Option<string>)
    returns (log: seq<Action>, failure: Option<SyncError>)
    ensures IndexOf(records).Failure? ==> log == [] && failure == Some(IndexFailed(IndexOf(records).error))
    ensures IndexOf(records).Success? ==> Outcome(log, failure) == Sync(IndexOf(records).value, items, isoDate)
  {
    var index := BuildIndex(records);
    if index.Failure? {
      return [], Some(IndexFailed(index.error));
    }
    log, failure := Reconcile(index.value, items, isoDate);
  }
}
