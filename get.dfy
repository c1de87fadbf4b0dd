/** Flattening the list of category items read from the categories JSON file into
    the category dictionary (`shortname` to `description`) and the keybind
    dictionary (`key` to a `shortname`, or to a sorted dictionary of the
    sub-items' keys). */
module Get {
  import opened Outcomes
  import opened PyText
  import opened Dicts

  /** One object of the JSON list. An absent `subcategories` field is an empty list. */
  datatype Item = Item(shortname: string, description: string, key: string, subcategories: seq<Item>)

  /** `if subcategories:` — only a non-empty list is true. */
  predicate IsParent(it: Item) {
    |it.subcategories| > 0
  }

  // ---------------------------------------------------------------------------
  // fetch_category_dictionary

  function SubEntries(subs: seq<Item>): (ps: seq<(string, string)>)
    ensures |ps| == |subs|
    ensures forall j :: 0 <= j < |subs| ==> ps[j] == (subs[j].shortname, subs[j].description)
  {
    seq(|subs|, j requires 0 <= j < |subs| => (subs[j].shortname, subs[j].description))
  }

  /** The `update` calls one item makes: one per sub-item of a parent, or its own. */
  function ItemEntries(it: Item): seq<(string, string)> {
    if IsParent(it) then SubEntries(it.subcategories) else [(it.shortname, it.description)]
  }

  function CategoryEntries(items: seq<Item>): seq<(string, string)> {
    if items == [] then []
    else CategoryEntries(items[..|items| - 1]) + ItemEntries(items[|items| - 1])
  }

  /** The dictionary the updates build, in order. */
  function CategoryDictionary(items: seq<Item>): Dict<string> {
    FromPairs(CategoryEntries(items))
  }

  /** One more item adds its updates after those of the items before it. */
  lemma ItemStep(items: seq<Item>, i: nat)
    requires i < |items|
    ensures CategoryEntries(items[..i + 1]) == CategoryEntries(items[..i]) + ItemEntries(items[i])
  {
    assert items[..i + 1][..i] == items[..i];
  }

  /** One more sub-item is one more update. */
  lemma SubStep(prefix: seq<(string, string)>, subs: seq<Item>, j: nat)
    requires j < |subs|
    ensures FromPairs(prefix + SubEntries(subs[..j + 1]))
         == Update(FromPairs(prefix + SubEntries(subs[..j])), subs[j].shortname, subs[j].description)
  {
    var p := (subs[j].shortname, subs[j].description);
    assert SubEntries(subs[..j + 1]) == SubEntries(subs[..j]) + [p];
    assert prefix + SubEntries(subs[..j + 1]) == (prefix + SubEntries(subs[..j])) + [p];
    FromPairsSnoc(prefix + SubEntries(subs[..j]), p);
  }

  /** The inner loop of `fetch_category_dictionary`: one update per sub-item, in order. */
  method UpdateFromSubcategories(d0: Dict<string>, ghost prefix: seq<(string, string)>, subs: seq<Item>)
      returns (d: Dict<string>)
    requires d0 == FromPairs(prefix)
    ensures d == FromPairs(prefix + SubEntries(subs))
  {
    d := d0;
    assert prefix + SubEntries(subs[..0]) == prefix;
    var j := 0;
    while j < |subs|
      invariant 0 <= j <= |subs|
      invariant d == FromPairs(prefix + SubEntries(subs[..j]))
    {
      var sub := subs[j];
      SubStep(prefix, subs, j);
      d := Update(d, sub.shortname, sub.description);
      j := j + 1;
    }
    assert subs[..j] == subs;
  }

  /** The body of the outer loop: the updates of one item. */
  method UpdateFromItem(d0: Dict<string>, ghost prefix: seq<(string, string)>, item: Item)
      returns (d: Dict<string>)
    requires d0 == FromPairs(prefix)
    ensures d == FromPairs(prefix + ItemEntries(item))
  {
    var subcategories := item.subcategories;
    if |subcategories| > 0 {
      d := UpdateFromSubcategories(d0, prefix, subcategories);
    } else {
      FromPairsSnoc(prefix, (item.shortname, item.description));
      d := Update(d0, item.shortname, item.description);
    }
  }

  /** `fetch_category_dictionary` after `json.load`. */
  method FetchCategoryDictionary(items: seq<Item>) returns (d: Dict<string>)
    ensures d == CategoryDictionary(items)
  {
    d := [];
    var i := 0;
    while i < |items|
      invariant 0 <= i <= |items|
      invariant d == FromPairs(CategoryEntries(items[..i]))
    {
      ItemStep(items, i);
      d := UpdateFromItem(d, CategoryEntries(items[..i]), items[i]);
      i := i + 1;
    }
    assert items[..i] == items;
  }

  /** A leaf item adds exactly `shortname: description`, replacing an earlier value. */
  lemma LeafContribution(items: seq<Item>, it: Item)
    requires !IsParent(it)
    ensures CategoryDictionary(items + [it]) == Update(CategoryDictionary(items), it.shortname, it.description)
  {
    ItemStep(items + [it], |items|);
    assert (items + [it])[..|items|] == items && (items + [it])[..|items| + 1] == items + [it];
    FromPairsSnoc(CategoryEntries(items), (it.shortname, it.description));
  }

  /** The keys an item contributes: its sub-items' shortnames, or its own. */
  predicate Contributes(it: Item, k: string) {
    if IsParent(it) then exists j :: 0 <= j < |it.subcategories| && it.subcategories[j].shortname == k
    else it.shortname == k
  }

  predicate HasKey<V>(ps: seq<(string, V)>, k: string) {
    exists i :: 0 <= i < |ps| && ps[i].0 == k
  }

  lemma HasKeyConcat<V>(ps: seq<(string, V)>, qs: seq<(string, V)>, k: string)
    ensures HasKey(ps + qs, k) <==> HasKey(ps, k) || HasKey(qs, k)
  {
    var r := ps + qs;
    if HasKey(r, k) {
      var i :| 0 <= i < |r| && r[i].0 == k;
      if i < |ps| { assert ps[i] == r[i]; } else { assert qs[i - |ps|] == r[i]; }
    }
    if HasKey(ps, k) {
      var i :| 0 <= i < |ps| && ps[i].0 == k;
      assert r[i] == ps[i];
    }
    if HasKey(qs, k) {
      var i :| 0 <= i < |qs| && qs[i].0 == k;
      assert r[|ps| + i] == qs[i];
    }
  }

  lemma ItemHasKey(it: Item, k: string)
    ensures HasKey(ItemEntries(it), k) <==> Contributes(it, k)
  {
    if !IsParent(it) {
      assert ItemEntries(it)[0].0 == it.shortname;
    }
  }

  predicate AnyContributes(items: seq<Item>, k: string) {
    exists i :: 0 <= i < |items| && Contributes(items[i], k)
  }

  lemma AnyContributesSnoc(items: seq<Item>, k: string)
    requires items != []
    ensures AnyContributes(items, k)
        <==> AnyContributes(items[..|items| - 1], k) || Contributes(items[|items| - 1], k)
  {
    var n := |items| - 1;
    var init := items[..n];
    if AnyContributes(items, k) {
      var m :| 0 <= m < |items| && Contributes(items[m], k);
      if m < n { assert init[m] == items[m]; }
    }
    if AnyContributes(init, k) {
      var m :| 0 <= m < |init| && Contributes(init[m], k);
      assert items[m] == init[m];
    }
  }

  lemma {:induction false} CategoryEntriesKeys(items: seq<Item>, k: string)
    ensures HasKey(CategoryEntries(items), k) <==> AnyContributes(items, k)
  {
    if items != [] {
      var n := |items| - 1;
      CategoryEntriesKeys(items[..n], k);
      HasKeyConcat(CategoryEntries(items[..n]), ItemEntries(items[n]), k);
      ItemHasKey(items[n], k);
      AnyContributesSnoc(items, k);
    }
  }

  /** The keys of the category dictionary are the shortnames of the leaf items and of
      the sub-items of parent items; a parent's own shortname is not among them
      unless one of those carries it. */
  lemma CategoryKeys(items: seq<Item>, k: string)
    ensures k in Keys(CategoryDictionary(items)) <==> exists i :: 0 <= i < |items| && Contributes(items[i], k)
  {
    FromPairsKeys(CategoryEntries(items), k);
    CategoryEntriesKeys(items, k);
    assert HasKey(CategoryEntries(items), k) <==> exists i :: 0 <= i < |CategoryEntries(items)| && CategoryEntries(items)[i].0 == k;
  }

  /** A shortname maps to the description of its last occurrence. */
  lemma CategoryLookup(items: seq<Item>, k: string, v: string)
    ensures Lookup(CategoryDictionary(items), k) == Some(v) <==> LastOccurrence(CategoryEntries(items), k, v)
  {
    FromPairsLookup(CategoryEntries(items), k);
    LastValueIsLast(CategoryEntries(items), k, v);
  }

  // ---------------------------------------------------------------------------
  // fetch_keybind_dict

  /** A keybind leads to a category's shortname or to a group of sub-keybinds. */
  datatype Keybind = Shortname(name: string) | Group(entries: Dict<string>)

  function SubKeybinds(subs: seq<Item>): (ps: seq<(string, string)>)
    ensures |ps| == |subs|
    ensures forall j :: 0 <= j < |subs| ==> ps[j] == (subs[j].key, subs[j].shortname)
  {
    seq(|subs|, j requires 0 <= j < |subs| => (subs[j].key, subs[j].shortname))
  }

  /** The value an item's key takes: `sort_dict({item["key"]: item["shortname"] for item
      in subcategories})` for a parent, its shortname for a leaf. */
  function ItemKeybind(it: Item): Keybind {
    if IsParent(it) then Group(SortDict(FromPairs(SubKeybinds(it.subcategories))))
    else Shortname(it.shortname)
  }

  function KeybindEntries(items: seq<Item>): (ps: seq<(string, Keybind)>)
    ensures |ps| == |items|
    ensures forall i :: 0 <= i < |items| ==> ps[i] == (items[i].key, ItemKeybind(items[i]))
  {
    seq(|items|, i requires 0 <= i < |items| => (items[i].key, ItemKeybind(items[i])))
  }

  function KeybindDictionary(items: seq<Item>): Dict<Keybind> {
    SortDict(FromPairs(KeybindEntries(items)))
  }

  lemma KeybindStep(items: seq<Item>, i: nat)
    requires i < |items|
    ensures FromPairs(KeybindEntries(items[..i + 1]))
         == Update(FromPairs(KeybindEntries(items[..i])), items[i].key, ItemKeybind(items[i]))
  {
    var p := (items[i].key, ItemKeybind(items[i]));
    assert KeybindEntries(items[..i + 1]) == KeybindEntries(items[..i]) + [p];
    FromPairsSnoc(KeybindEntries(items[..i]), p);
  }

  /** `fetch_keybind_dict` after `json.load`. */
  method FetchKeybindDict(items: seq<Item>) returns (d: Dict<Keybind>)
    ensures d == KeybindDictionary(items)
  {
    var keybinds: Dict<Keybind> := [];
    var i := 0;
    while i < |items|
      invariant 0 <= i <= |items|
      invariant keybinds == FromPairs(KeybindEntries(items[..i]))
    {
      var item := items[i];
      KeybindStep(items, i);
      var subcategories := item.subcategories;
      if |subcategories| > 0 {
        var group := FromPairs(SubKeybinds(subcategories));
        keybinds := Update(keybinds, item.key, Group(SortDict(group)));
      } else {
        keybinds := Update(keybinds, item.key, Shortname(item.shortname));
      }
      i := i + 1;
    }
    assert items[..i] == items;
    d := SortDict(keybinds);
  }

  /** The keybind dictionary and every group in it have their keys in ascending order. */
  lemma KeybindSorted(items: seq<Item>)
    ensures StrictlySorted(KeybindDictionary(items))
    ensures forall i :: 0 <= i < |KeybindDictionary(items)| && KeybindDictionary(items)[i].1.Group? ==>
      StrictlySorted(KeybindDictionary(items)[i].1.entries)
  {
    var d := KeybindDictionary(items);
    forall i | 0 <= i < |d| && d[i].1.Group? ensures StrictlySorted(d[i].1.entries) {
      assert d[i] in multiset(FromPairs(KeybindEntries(items)));
      var ps := KeybindEntries(items);
      FromPairsLookup(ps, d[i].0);
      LookupMember(FromPairs(ps), d[i].0, d[i].1);
      LastValueIsLast(ps, d[i].0, d[i].1);
      var m :| 0 <= m < |ps| && ps[m] == d[i] && forall j :: m < j < |ps| ==> ps[j].0 != d[i].0;
      assert ItemKeybind(items[m]) == d[i].1;
    }
  }

  /** A key maps to the keybind of the last item carrying it. */
  lemma KeybindLookup(items: seq<Item>, k: string, b: Keybind)
    ensures Lookup(KeybindDictionary(items), k) == Some(b) <==>
      exists i :: 0 <= i < |items| && items[i].key == k && ItemKeybind(items[i]) == b
        && forall j :: i < j < |items| ==> items[j].key != k
  {
    var ps := KeybindEntries(items);
    SortDictLookup(FromPairs(ps), k);
    FromPairsLookup(ps, k);
    LastValueIsLast(ps, k, b);
    KeybindOccurrence(items, k, b);
  }

  lemma KeybindOccurrence(items: seq<Item>, k: string, b: Keybind)
    ensures LastOccurrence(KeybindEntries(items), k, b) <==>
      exists i :: 0 <= i < |items| && items[i].key == k && ItemKeybind(items[i]) == b
        && forall j :: i < j < |items| ==> items[j].key != k
  {
    var ps := KeybindEntries(items);
    if LastOccurrence(ps, k, b) {
      var i :| 0 <= i < |ps| && ps[i] == (k, b) && forall j :: i < j < |ps| ==> ps[j].0 != k;
      forall j | i < j < |items| ensures items[j].key != k {
        assert ps[j].0 == items[j].key;
      }
    }
    if exists i :: 0 <= i < |items| && items[i].key == k && ItemKeybind(items[i]) == b
        && forall j :: i < j < |items| ==> items[j].key != k {
      var i :| 0 <= i < |items| && items[i].key == k && ItemKeybind(items[i]) == b
        && forall j :: i < j < |items| ==> items[j].key != k;
      assert ps[i] == (k, b);
      forall j | i < j < |ps| ensures ps[j].0 != k {
        assert ps[j].0 == items[j].key;
      }
      assert LastOccurrence(ps, k, b);
    }
  }

  /** In a group, a sub-key maps to the shortname of the last sub-item carrying it. */
  lemma GroupLookup(it: Item, k: string, name: string)
    requires IsParent(it)
    ensures Lookup(ItemKeybind(it).entries, k) == Some(name) <==>
      exists j :: 0 <= j < |it.subcategories| && it.subcategories[j].key == k
        && it.subcategories[j].shortname == name
        && forall j' :: j < j' < |it.subcategories| ==> it.subcategories[j'].key != k
  {
    var ps := SubKeybinds(it.subcategories);
    SortDictLookup(FromPairs(ps), k);
    FromPairsLookup(ps, k);
    LastValueIsLast(ps, k, name);
    SubKeybindOccurrence(it.subcategories, k, name);
  }

  lemma SubKeybindOccurrence(subs: seq<Item>, k: string, name: string)
    ensures LastOccurrence(SubKeybinds(subs), k, name) <==>
      exists j :: 0 <= j < |subs| && subs[j].key == k && subs[j].shortname == name
        && forall j' :: j < j' < |subs| ==> subs[j'].key != k
  {
    var ps := SubKeybinds(subs);
    if LastOccurrence(ps, k, name) {
      var j :| 0 <= j < |ps| && ps[j] == (k, name) && forall j' :: j < j' < |ps| ==> ps[j'].0 != k;
      forall j' | j < j' < |subs| ensures subs[j'].key != k {
        assert ps[j'].0 == subs[j'].key;
      }
    }
    if exists j :: 0 <= j < |subs| && subs[j].key == k && subs[j].shortname == name
        && forall j' :: j < j' < |subs| ==> subs[j'].key != k {
      var j :| 0 <= j < |subs| && subs[j].key == k && subs[j].shortname == name
        && forall j' :: j < j' < |subs| ==> subs[j'].key != k;
      assert ps[j] == (k, name);
      forall j' | j < j' < |ps| ensures ps[j'].0 != k {
        assert ps[j'].0 == subs[j'].key;
      }
      assert LastOccurrence(ps, k, name);
    }
  }
}
