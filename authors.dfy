/**
 * `_dblp_authors`: the DBLP search API reports a hit's authors in several
 * JSON shapes; this flattens each of them into an ordered list of non-empty
 * display names.
 */
module Authors {
  import opened Wrappers
  import opened Text

  /** One element of an `author` list. */
  datatype Item =
    | ItemObject(text: Option<string>)   // an object; `text` is its `text` member, if any
    | ItemScalar(shown: string)          // anything else, as `str()` renders it

  /** The `authors` member of a hit's `info` object. */
  datatype Field =
    | NoAuthorObject                     // absent, not an object, or without an `author` key
    | AuthorList(items: seq<Item>)       // `author` is a list
    | AuthorObject(text: Option<string>) // `author` is a single object
    | AuthorScalar(shown: string)        // `author` is anything else, as `str()` renders it

  /** The candidate name an item yields before the emptiness test (`a.get('text')` or `str(a)`). */
  function ItemName(item: Item): string
  {
    match item
    case ItemObject(t) => t.GetOr("")
    case ItemScalar(s) => s
  }

  /** The candidate names of a list of items, in order. */
  function ItemNames(items: seq<Item>): (r: seq<string>)
    ensures |r| == |items|
    ensures forall k :: 0 <= k < |items| ==> r[k] == ItemName(items[k])
  {
    seq(|items|, k requires 0 <= k < |items| => ItemName(items[k]))
  }

  /**
   * The names `_dblp_authors` returns: nothing unless there is an `author`
   * member; otherwise every non-empty candidate name, in input order, and at
   * most one name unless `author` is a list.
   */
  function Names(field: Field): (names: seq<string>)
    ensures forall k :: 0 <= k < |names| ==> names[k] != ""
    ensures field.NoAuthorObject? ==> names == []
    ensures !field.AuthorList? ==> |names| <= 1
    ensures field.AuthorList? ==> |names| <= |field.items|
  {
    match field
    case NoAuthorObject => []
    case AuthorList(items) => KeepNonEmpty(ItemNames(items))
    case AuthorObject(t) => KeepNonEmpty([t.GetOr("")])
    case AuthorScalar(s) => KeepNonEmpty([s])
  }

  /**
   * The names of a list split in two are the names of the first part followed
   * by those of the second: the order of the input is kept.
   */
  lemma ListNamesInOrder(a: seq<Item>, b: seq<Item>)
    ensures Names(AuthorList(a + b)) == Names(AuthorList(a)) + Names(AuthorList(b))
  {
    assert ItemNames(a + b) == ItemNames(a) + ItemNames(b);
    KeepNonEmptyAppend(ItemNames(a), ItemNames(b));
  }

  /** A one-item list yields the item's name unless it is empty. */
  lemma ListNameSingle(item: Item)
    ensures Names(AuthorList([item])) == if ItemName(item) != "" then [ItemName(item)] else []
  {
    var cands := ItemNames([item]);
    assert cands == [ItemName(item)];
    assert cands[1..] == [];
  }

  /**
   * A name is returned for a list exactly when some item yields it and it is
   * not empty.
   */
  lemma ListNameMembership(items: seq<Item>, name: string)
    ensures name in Names(AuthorList(items)) <==> name != "" && exists k :: 0 <= k < |items| && ItemName(items[k]) == name
  {
    var cands := ItemNames(items);
    KeepNonEmptyMembers(cands);
    if name in Names(AuthorList(items)) {
      assert name in cands;
      var k :| 0 <= k < |cands| && cands[k] == name;
      assert ItemName(items[k]) == name;
    }
  }

  /** One more item adds its name, unless that is empty. */
  lemma ListNamesStep(items: seq<Item>, i: nat)
    requires i < |items|
    ensures Names(AuthorList(items[..i + 1])) == Names(AuthorList(items[..i]))
      + (if ItemName(items[i]) != "" then [ItemName(items[i])] else [])
  {
    ListNamesInOrder(items[..i], [items[i]]);
    ListNameSingle(items[i]);
    assert items[..i + 1] == items[..i] + [items[i]];
  }

  /** The list branch of `_dblp_authors`: appends each item's name when it is not empty. */
  method ListNames(items: seq<Item>) returns (names: seq<string>)
    ensures names == Names(AuthorList(items))
  {
    names := [];
    for i := 0 to |items|
      invariant names == Names(AuthorList(items[..i]))
    {
      var t := ItemName(items[i]);
      if t != "" {
        names := names + [t];
      }
      ListNamesStep(items, i);
    }
    assert items[..|items|] == items;
  }

  /** `_dblp_authors`: dispatches on the shape of the `authors` member. */
  method DblpAuthors(field: Field) returns (names: seq<string>)
    ensures names == Names(field)
  {
    names := [];
    match field {
      case NoAuthorObject =>
      case AuthorList(items) =>
        names := ListNames(items);
      case AuthorObject(text) =>
        var t := text.GetOr("");
        if t != "" {
          names := names + [t];
        }
      case AuthorScalar(shown) =>
        if shown != "" {
          names := names + [shown];
        }
    }
  }
}
