/**
 * The index of existing Notion pages (main.py:31-39): a map from each
 * page's Zotero key to its page id, its synced version and its citation key.
 */
module MirrorIndex {
  import opened Wrappers

  /**
   * One page of the Notion database as the index reads it: the plain texts of
   * the "Zotero: Key" rich-text and "Citation Key" title segments, and the
   * "Zotero: Version" number, which Notion reports as null when it is unset.
   */
  datatype Record = Record(id: string, zoteroKey: seq<string>, version: Option<int>, citationKey: seq<string>)

  datatype Entry = Entry(pageId: string, version: Option<int>, citekey: string)

  type Index = map<string, Entry>

  /**
   * Indexing a segment list with `[0]` raises on an empty list. `at` is the
   * record's position in the query result.
   */
  datatype IndexError = EmptyCitationKey(at: nat) | EmptyZoteroKey(at: nat)

  /** A record the index builder can read without raising. */
  predicate WellFormed(r: Record)
  {
    r.zoteroKey != [] && r.citationKey != []
  }

  function KeyOf(r: Record): string
    requires WellFormed(r)
  {
    r.zoteroKey[0]
  }

  function EntryOf(r: Record): Entry
    requires WellFormed(r)
  {
    Entry(r.id, r.version, r.citationKey[0])
  }

  /**
   * The index after the loop has visited `records` in order. The value of the
   * assignment is evaluated before its subscript, so the citation key is read
   * before the Zotero key, and an empty citation key is reported first.
   */
  function IndexOf(records: seq<Record>): Result<Index, IndexError>
  {
    if records == [] then Success(map[])
    else
      var n := |records| - 1;
      match IndexOf(records[..n])
      case Failure(e) => Failure(e)
      case Success(m) =>
        var r := records[n];
        if r.citationKey == [] then Failure(EmptyCitationKey(n))
        else if r.zoteroKey == [] then Failure(EmptyZoteroKey(n))
        else Success(m[KeyOf(r) := EntryOf(r)])
  }

  /** `e` names the first malformed record and the segment list that raised. */
  predicate FirstMalformed(records: seq<Record>, e: IndexError)
  {
    && e.at < |records|
    && !WellFormed(records[e.at])
    && (forall j :: 0 <= j < e.at ==> WellFormed(records[j]))
    && (e.EmptyCitationKey? <==> records[e.at].citationKey == [])
  }

  /** Once a prefix has raised, the whole run raises the same error. */
  lemma {:induction false} FailureSticks(records: seq<Record>, n: nat)
    requires n <= |records|
    requires IndexOf(records[..n]).Failure?
    ensures IndexOf(records) == IndexOf(records[..n])
    decreases |records| - n
  {
    if n < |records| {
      assert records[..n + 1][..n] == records[..n];
      FailureSticks(records, n + 1);
    } else {
      assert records[..n] == records;
    }
  }

  /**
   * Building the index fails iff some record has an empty Zotero key or an
   * empty citation key, and then it reports the first such record.
   */
  lemma {:induction false} IndexFailure(records: seq<Record>)
    ensures IndexOf(records).Failure? <==> exists i :: 0 <= i < |records| && !WellFormed(records[i])
    ensures IndexOf(records).Failure? ==> FirstMalformed(records, IndexOf(records).error)
  {
    if records != [] {
      var n := |records| - 1;
      var t := records[..n];
      IndexFailure(t);
      assert forall i :: 0 <= i < n ==> t[i] == records[i];
      if IndexOf(t).Success? && !WellFormed(records[n]) {
        assert IndexOf(records).error.at == n;
      }
    }
  }

  /** When every record is well formed, the keys of the index are exactly the records' Zotero keys. */
  lemma {:induction false} IndexKeys(records: seq<Record>)
    requires forall i :: 0 <= i < |records| ==> WellFormed(records[i])
    ensures IndexOf(records).Success?
    ensures IndexOf(records).value.Keys == set i | 0 <= i < |records| :: KeyOf(records[i])
  {
    if records != [] {
      var n := |records| - 1;
      var t := records[..n];
      IndexKeys(t);
      assert forall i :: 0 <= i < n ==> t[i] == records[i];
      var before := set i | 0 <= i < n :: KeyOf(records[i]);
      var after := set i | 0 <= i < |records| :: KeyOf(records[i]);
      assert after == before + {KeyOf(records[n])};
    }
  }

  /** A record whose key no later record repeats determines that key's entry: later records overwrite. */
  lemma {:induction false} IndexLastWins(records: seq<Record>, i: nat)
    requires forall j :: 0 <= j < |records| ==> WellFormed(records[j])
    requires i < |records|
    requires forall j :: i < j < |records| ==> KeyOf(records[j]) != KeyOf(records[i])
    ensures IndexOf(records).Success?
    ensures KeyOf(records[i]) in IndexOf(records).value
    ensures IndexOf(records).value[KeyOf(records[i])] == EntryOf(records[i])
  {
    var n := |records| - 1;
    var t := records[..n];
    IndexKeys(records);
    IndexKeys(t);
    if i < n {
      assert forall j :: 0 <= j < n ==> t[j] == records[j];
      IndexLastWins(t, i);
    }
  }

  /** The loop of main.py:31-39. */
  method BuildIndex(records: seq<Record>) returns (r: Result<Index, IndexError>)
    ensures r == IndexOf(records)
  {
    var existing: Index := map[];
    for i := 0 to |records|
      invariant IndexOf(records[..i]) == Success(existing)
    {
      var record := records[i];
      assert records[..i + 1][..i] == records[..i];
      if record.citationKey == [] {
        FailureSticks(records, i + 1);
        return Failure(EmptyCitationKey(i));
      }
      if record.zoteroKey == [] {
        FailureSticks(records, i + 1);
        return Failure(EmptyZoteroKey(i));
      }
      existing := existing[record.zoteroKey[0] := Entry(record.id, record.version, record.citationKey[0])];
    }
    assert records[..|records|] == records;
    r := Success(existing);
  }
}
