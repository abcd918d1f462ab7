/**
 * The attribute accessors that rules use on a parsed block: fetch the
 * literal token of an attribute, fetch the items stored under a key, and
 * probe whether a key is present. A parsed item is its sequence of key
 * labels and its value; a value is a literal token, a list or an object of
 * child items. Token positions are not modelled, only the token text.
 * In the source these accessors belong to the `detector` package; they sit
 * in a module of their own here, next to the parsed-item model they read.
 */
module Ast {
  import opened Wrappers

  datatype Node =
    | Literal(text: string)
    | ListNode(elems: seq<Node>)
    | ObjectNode(items: seq<Item>)

  /** `keys` holds the labels before the value: `resource "aws_instance" "web"`. */
  datatype Item = Item(keys: seq<string>, val: Node)

  datatype AccessError =
    | KeyNotFound(key: string)
    | NotLiteral(key: string)

  /** The item's labels start with `keys`. */
  predicate Matches(item: Item, keys: seq<string>)
  {
    |keys| <= |item.keys| && item.keys[..|keys|] == keys
  }

  /** The item as the filter hands it on: the matched labels removed. */
  function Stripped(item: Item, keys: seq<string>): Item
    requires Matches(item, keys)
  {
    Item(item.keys[|keys|..], item.val)
  }

  /**
   * The items whose labels start with `keys`, in source order, each with
   * those labels removed (the parser library's `ObjectList.Filter`).
   */
  function Filter(items: seq<Item>, keys: seq<string>): seq<Item>
    decreases items
  {
    if items == [] then []
    else
      var last := items[|items| - 1];
      var front := Filter(items[..|items| - 1], keys);
      if Matches(last, keys) then front + [Stripped(last, keys)] else front
  }

  /** Some direct attribute of the object is named `k`, whatever its value. */
  predicate HasAttribute(items: seq<Item>, k: string)
  {
    exists i :: 0 <= i < |items| && Matches(items[i], [k])
  }

  /** The first item, in source order, whose labels start with `keys`. */
  function FirstMatch(items: seq<Item>, keys: seq<string>): (r: Option<Item>)
    ensures r.None? <==> forall i :: 0 <= i < |items| ==> !Matches(items[i], keys)
    ensures r.Some? ==> Matches(r.value, keys)
    ensures r.Some? ==> exists i ::
      (0 <= i < |items| && items[i] == r.value && forall j :: 0 <= j < i ==> !Matches(items[j], keys))
    decreases items
  {
    if items == [] then None
    else if Matches(items[0], keys) then Some(items[0])
    else FirstMatch(items[1..], keys)
  }

  /** Filtering a concatenation filters each part. */
  lemma {:induction false} FilterAppend(a: seq<Item>, b: seq<Item>, keys: seq<string>)
    ensures Filter(a + b, keys) == Filter(a, keys) + Filter(b, keys)
    decreases b
  {
    if b == [] {
      assert a + b == a;
    } else {
      var b' := b[..|b| - 1];
      assert (a + b)[..|a + b| - 1] == a + b';
      assert (a + b)[|a + b| - 1] == b[|b| - 1];
      FilterAppend(a, b', keys);
    }
  }

  /** The filter hands on exactly the matching items, stripped. */
  lemma {:induction false} FilterMembers(items: seq<Item>, keys: seq<string>, x: Item)
    ensures x in Filter(items, keys) <==>
      exists i :: 0 <= i < |items| && Matches(items[i], keys) && x == Stripped(items[i], keys)
    decreases items
  {
    if items != [] {
      var front := items[..|items| - 1];
      FilterMembers(front, keys, x);
      if exists i :: 0 <= i < |front| && Matches(front[i], keys) && x == Stripped(front[i], keys) {
        var i :| 0 <= i < |front| && Matches(front[i], keys) && x == Stripped(front[i], keys);
        assert items[i] == front[i];
      }
      if exists i :: 0 <= i < |items| && Matches(items[i], keys) && x == Stripped(items[i], keys) {
        var i :| 0 <= i < |items| && Matches(items[i], keys) && x == Stripped(items[i], keys);
        if i < |items| - 1 {
          assert front[i] == items[i];
        }
      }
    }
  }

  /** `FilterMembers` for every candidate item at once. */
  lemma {:induction false} FilterMembersAll(items: seq<Item>, keys: seq<string>)
    ensures forall x :: x in Filter(items, keys) <==>
      exists i :: 0 <= i < |items| && Matches(items[i], keys) && x == Stripped(items[i], keys)
  {
    forall x {
      FilterMembers(items, keys, x);
    }
  }

  /**
   * The filter keeps exactly the matching items: it is empty when none
   * matches, and otherwise starts with the first matching item, stripped.
   */
  lemma {:induction false} FilterFirst(items: seq<Item>, keys: seq<string>)
    ensures FirstMatch(items, keys).None? <==> Filter(items, keys) == []
    ensures FirstMatch(items, keys).Some? ==>
      Filter(items, keys)[0] == Stripped(FirstMatch(items, keys).value, keys)
    decreases items
  {
    if items != [] {
      FilterFirst(items[1..], keys);
      FilterAppend([items[0]], items[1..], keys);
      assert [items[0]] + items[1..] == items;
      assert [items[0]][..0] == [];
    }
  }

  /**
   * The items stored under `k` in the object `item` (`hclObjectItems`): the
   * attributes named `k`, in source order, with the key removed; an error
   * when there is none.
   */
  function HclObjectItems(item: Item, k: string): (r: Result<seq<Item>, AccessError>)
    requires item.val.ObjectNode?
    ensures r.Err? <==> !HasAttribute(item.val.items, k)
    ensures r.Err? ==> r.error == KeyNotFound(k)
    ensures r.Ok? ==> r.value != [] && r.value[0] == Stripped(FirstMatch(item.val.items, [k]).value, [k])
    ensures r.Ok? ==> forall x :: x in r.value <==>
      exists i :: 0 <= i < |item.val.items| && Matches(item.val.items[i], [k]) && x == Stripped(item.val.items[i], [k])
    ensures r.Ok? ==> r.value == Filter(item.val.items, [k])
  {
    FilterFirst(item.val.items, [k]);
    FilterMembersAll(item.val.items, [k]);
    var items := Filter(item.val.items, [k]);
    if |items| == 0 then Err(KeyNotFound(k)) else Ok(items)
  }

  /**
   * The literal token of attribute `k` (`hclLiteralToken`): the text of the
   * first attribute named `k` when its value is a literal; an error when the
   * key is absent or its value is a list or an object.
   */
  function HclLiteralToken(item: Item, k: string): (r: Result<string, AccessError>)
    requires item.val.ObjectNode?
    ensures !HasAttribute(item.val.items, k) ==> r == Err(KeyNotFound(k))
    ensures HasAttribute(item.val.items, k) ==>
      var first := FirstMatch(item.val.items, [k]).value;
      if first.val.Literal? then r == Ok(first.val.text) else r == Err(NotLiteral(k))
  {
    match HclObjectItems(item, k)
    case Err(e) => Err(e)
    case Ok(items) =>
      if items[0].val.Literal? then Ok(items[0].val.text) else Err(NotLiteral(k))
  }

  /** `IsKeyNotFound`: true exactly when no attribute of the object is named `k`. */
  function IsKeyNotFound(item: Item, k: string): (r: bool)
    requires item.val.ObjectNode?
    ensures r <==> !HasAttribute(item.val.items, k)
  {
    FilterFirst(item.val.items, [k]);
    |Filter(item.val.items, [k])| == 0
  }

  /** The two probes agree: the key is missing exactly when fetching its items fails. */
  lemma KeyNotFoundIffItemsFail(item: Item, k: string)
    requires item.val.ObjectNode?
    ensures IsKeyNotFound(item, k) <==> HclObjectItems(item, k).Err?
    ensures IsKeyNotFound(item, k) ==> HclLiteralToken(item, k) == Err(KeyNotFound(k))
  {
  }

}
