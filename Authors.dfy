/**
 * The Authors property (main.py:64-76): one label per creator whose
 * `creatorType` is "author", in creator order, built from the creator's
 * name parts.
 */
module Authors {
  import opened Wrappers
  import opened Zotero
  import Seqs

  /** The keys the label loop visits, in the order it visits them (main.py:68). */
  datatype NamePart = Name | FirstName | MiddleName | LastName

  const NameOrder: seq<NamePart> := [Name, FirstName, MiddleName, LastName]

  /** The creator's value for a key, or `None` when the creator lacks that key. */
  function PartOf(c: Creator, k: NamePart): Option<string>
  {
    match k
    case Name => c.name
    case FirstName => c.firstName
    case MiddleName => c.middleName
    case LastName => c.lastName
  }

  /** What one key adds to the label: the part, then a space unless the key is lastName. */
  function Piece(c: Creator, k: NamePart): string
  {
    match PartOf(c, k)
    case None => ""
    case Some(v) => if k != LastName then v + " " else v
  }

  /** The label accumulated after visiting `keys` in order. */
  function LabelOver(c: Creator, keys: seq<NamePart>): string
  {
    if keys == [] then "" else LabelOver(c, keys[..|keys| - 1]) + Piece(c, keys[|keys| - 1])
  }

  /** The label of one creator. */
  function Label(c: Creator): string
  {
    LabelOver(c, NameOrder)
  }

  /** A present part followed by one space. */
  function Spaced(o: Option<string>): string
  {
    match o
    case None => ""
    case Some(v) => v + " "
  }

  /** A present part on its own. */
  function Bare(o: Option<string>): string
  {
    match o
    case None => ""
    case Some(v) => v
  }

  /**
   * The label is name, firstName, middleName and lastName in that order,
   * each only if present, the first three followed by exactly one space
   * and lastName by none.
   */
  lemma LabelLayout(c: Creator)
    ensures Label(c) == Spaced(c.name) + Spaced(c.firstName) + Spaced(c.middleName) + Bare(c.lastName)
  {
    assert [Name][..0] == [];
    assert LabelOver(c, [Name]) == Spaced(c.name);
    assert [Name, FirstName][..1] == [Name];
    assert LabelOver(c, [Name, FirstName]) == Spaced(c.name) + Spaced(c.firstName);
    assert [Name, FirstName, MiddleName][..2] == [Name, FirstName];
    assert LabelOver(c, [Name, FirstName, MiddleName])
      == Spaced(c.name) + Spaced(c.firstName) + Spaced(c.middleName);
    assert NameOrder[..3] == [Name, FirstName, MiddleName];
  }

  /** A creator without lastName but with another part gets a label that ends in a space. */
  lemma LabelTrailingSpace(c: Creator)
    requires c.lastName.None?
    requires c.name.Some? || c.firstName.Some? || c.middleName.Some?
    ensures |Label(c)| > 0 && Label(c)[|Label(c)| - 1] == ' '
  {
    LabelLayout(c);
  }

  /** A creator with a lastName gets a label that ends in that lastName. */
  lemma LabelEndsWithLastName(c: Creator)
    requires c.lastName.Some?
    ensures |c.lastName.value| <= |Label(c)|
    ensures Label(c)[|Label(c)| - |c.lastName.value|..] == c.lastName.value
  {
    LabelLayout(c);
  }

  predicate IsAuthor(c: Creator)
  {
    c.creatorType == "author"
  }

  /** The Authors list of an item with these creators. */
  function AuthorsOf(creators: seq<Creator>): seq<string>
  {
    Seqs.Select(creators, IsAuthor, Label)
  }

  /**
   * One label per author creator, in creator order: entry `k` is the label
   * of the `k`-th creator whose type is "author", and every author creator
   * has an entry.
   */
  lemma AuthorsInOrder(creators: seq<Creator>)
    ensures |AuthorsOf(creators)| == |Seqs.Kept(creators, IsAuthor)|
    ensures Seqs.Increasing(Seqs.Kept(creators, IsAuthor))
    ensures forall k :: 0 <= k < |AuthorsOf(creators)| ==>
      Seqs.Kept(creators, IsAuthor)[k] < |creators|
      && IsAuthor(creators[Seqs.Kept(creators, IsAuthor)[k]])
      && AuthorsOf(creators)[k] == Label(creators[Seqs.Kept(creators, IsAuthor)[k]])
    ensures forall i :: 0 <= i < |creators| && IsAuthor(creators[i]) ==> i in Seqs.Kept(creators, IsAuthor)
  {
    Seqs.KeptExactly(creators, IsAuthor);
    Seqs.SelectAt(creators, IsAuthor, Label);
  }

  /** Creators of any other type contribute nothing to the list. */
  lemma NonAuthorsIgnored(before: seq<Creator>, c: Creator, after: seq<Creator>)
    requires !IsAuthor(c)
    ensures AuthorsOf(before + [c] + after) == AuthorsOf(before + after)
  {
    Seqs.SelectConcat(before + [c], after, IsAuthor, Label);
    Seqs.SelectConcat(before, [c], IsAuthor, Label);
    Seqs.SelectConcat(before, after, IsAuthor, Label);
    assert Seqs.Select([c], IsAuthor, Label) == [] by {
      assert [c][..0] == [];
    }
  }

  /** The inner loop of main.py:67-71: the label of one creator, key by key. */
  method BuildLabel(c: Creator) returns (authorStr: string)
    ensures authorStr == Label(c)
  {
    authorStr := "";
    for i := 0 to |NameOrder|
      invariant authorStr == LabelOver(c, NameOrder[..i])
    {
      var key := NameOrder[i];
      assert NameOrder[..i + 1][..i] == NameOrder[..i];
      match PartOf(c, key) {
        case Some(v) =>
          authorStr := authorStr + v;
          authorStr := authorStr + (if key != LastName then " " else "");
        case None =>
      }
    }
    assert NameOrder[..|NameOrder|] == NameOrder;
  }

  /** The outer loop of main.py:64-72: the labels of the author creators. */
  method CollectAuthors(creators: seq<Creator>) returns (authors: seq<string>)
    ensures authors == AuthorsOf(creators)
  {
    authors := [];
    for i := 0 to |creators|
      invariant authors == AuthorsOf(creators[..i])
    {
      var creator := creators[i];
      assert creators[..i + 1][..i] == creators[..i];
      if creator.creatorType == "author" {
        var authorStr := BuildLabel(creator);
        authors := authors + [authorStr];
      }
    }
    assert creators[..|creators|] == creators;
  }
}
