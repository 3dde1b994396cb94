/** The in-memory inventory store of inventory_system.py: one process-wide
    table from item name to quantity, the operations that update it in place
    (add_item, remove_item, load_data) and those that only read it
    (get_qty, check_low_items, and what save_data writes out). */
module InventorySystem {
  import opened PyDict

  datatype Option<T> = None | Some(value: T)

  datatype Result<T, E> = Success(value: T) | Failure(error: E)

  /** An argument as Python sees it at run time. A `bool` is kept apart from
      an `int` because Python counts it as one (`isinstance(True, int)`). */
  datatype Value = Str(s: string) | Int(i: int) | Bool(b: bool) | Other

  /** Why add_item refused its arguments; the item is checked first. */
  datatype AddError = ItemNotStr | QtyNotInt

  /** The default threshold of check_low_items. */
  const DefaultThreshold: int := 5

  /** The type checks at the head of add_item: the item must be a `str` and
      the quantity an `int`, where a `bool` is the integer 1 or 0. */
  function CheckAddArgs(item: Value, qty: Value): (r: Result<(string, int), AddError>)
    ensures r.Success? <==> item.Str? && (qty.Int? || qty.Bool?)
    ensures !item.Str? ==> r == Failure(ItemNotStr)
    ensures item.Str? && !(qty.Int? || qty.Bool?) ==> r == Failure(QtyNotInt)
    ensures r.Success? ==> r.value.0 == item.s
    ensures r.Success? && qty.Int? ==> r.value.1 == qty.i
    ensures r.Success? && qty.Bool? ==> r.value.1 == (if qty.b then 1 else 0)
  {
    match item
    case Str(name) =>
      (match qty
       case Int(n) => Success((name, n))
       case Bool(b) => Success((name, if b then 1 else 0))
       case _ => Failure(QtyNotInt))
    case _ => Failure(ItemNotStr)
  }

  /** One entry of the caller's audit list: what was added to which item.
      The timestamp the source prefixes is not modelled. */
  datatype AuditEntry = Added(qty: Value, item: string)

  /** The caller-owned list that add_item appends its audit entries to. */
  class AuditLog {
    var entries: seq<AuditEntry>

    constructor ()
      ensures entries == []
    {
      entries := [];
    }

    /** `logs.append(e)` */
    method Append(e: AuditEntry)
      modifies this
      ensures entries == old(entries) + [e]
    {
      entries := entries + [e];
    }
  }

  /** The keys of `ks`, in order, whose quantity is below `threshold`. */
  function LowKeys(ks: seq<string>, vals: map<string, int>, threshold: int): (r: seq<string>)
    requires forall k :: k in ks ==> k in vals
    ensures forall k :: k in r <==> k in ks && vals[k] < threshold
    ensures IsSubsequence(r, ks)
    ensures Distinct(ks) ==> Distinct(r)
  {
    if ks == [] then []
    else
      var rest := LowKeys(ks[1..], vals, threshold);
      if vals[ks[0]] < threshold then
        assert Distinct(ks) ==> ks[0] !in ks[1..];
        [ks[0]] + rest
      else
        assert rest == [] || rest[0] in rest;
        rest
  }

  /** The low-stock list is pinned down by what it contains: any list of
      stored keys in iteration order holding exactly the items below the
      threshold is that list. */
  lemma LowKeysUnique(d: Dict, threshold: int, r: seq<string>)
    requires d.Valid()
    requires IsSubsequence(r, d.keys)
    requires forall k :: k in r <==> k in d.vals && d.vals[k] < threshold
    ensures r == LowKeys(d.keys, d.vals, threshold)
  {
    SubsequenceDetermined(r, LowKeys(d.keys, d.vals, threshold), d.keys);
  }

  /** The store add_item leaves behind. Rejected arguments change nothing;
      otherwise the item's quantity grows by `qty` from its old value, 0 when
      it was absent, with no sign or bound check, a new item is appended to
      the iteration order and a present one keeps its place. */
  function AddedTo(d: Dict, item: Value, qty: Value): (r: Dict)
    requires d.Valid()
    ensures r.Valid()
    ensures CheckAddArgs(item, qty).Failure? ==> r == d
    ensures CheckAddArgs(item, qty).Success? ==>
              var (name, n) := CheckAddArgs(item, qty).value;
              && name in r.vals
              && r.vals[name] == d.Get(name, 0) + n
              && (name in d.vals ==> r.keys == d.keys)
              && (name !in d.vals ==> r.keys == d.keys + [name])
    ensures forall k :: !(item.Str? && k == item.s) ==>
              (k in r.vals <==> k in d.vals) && r.Get(k, 0) == d.Get(k, 0)
  {
    match CheckAddArgs(item, qty)
    case Failure(_) => d
    case Success((name, n)) => d.Put(name, d.Get(name, 0) + n)
  }

  /** The store remove_item leaves behind. An absent item changes nothing.
      A present one with quantity `Q` is deleted when `Q - qty <= 0` and
      otherwise holds `Q - qty` in the same place. No other item changes. */
  function RemovedFrom(d: Dict, item: string, qty: int): (r: Dict)
    requires d.Valid()
    ensures r.Valid()
    ensures item !in d.vals ==> r == d
    ensures item in d.vals && d.vals[item] - qty <= 0 ==>
              item !in r.vals && r.Get(item, 0) == 0 && IsSubsequence(r.keys, d.keys)
    ensures item in d.vals && d.vals[item] - qty > 0 ==>
              item in r.vals && r.vals[item] == d.vals[item] - qty && r.keys == d.keys
    ensures item in d.vals && d.vals[item] - qty <= 0 ==> r == d.Delete(item)
    ensures forall k :: k != item ==>
              (k in r.vals <==> k in d.vals) && r.Get(k, 0) == d.Get(k, 0)
  {
    if item !in d.vals then d
    else if d.vals[item] - qty <= 0 then
      PutThenDelete(d, item, d.vals[item] - qty);
      d.Put(item, d.vals[item] - qty).Delete(item)
    else d.Put(item, d.vals[item] - qty)
  }

  /** An item that remove_item deleted and add_item brings back is placed at
      the end of the iteration order, with exactly the quantity added. */
  lemma ReaddedGoesLast(d: Dict, item: string, qty: int, n: int)
    requires d.Valid() && item in d.vals && d.vals[item] - qty <= 0
    ensures var r := AddedTo(RemovedFrom(d, item, qty), Str(item), Int(n));
            && r.keys == RemovedFrom(d, item, qty).keys + [item]
            && r.vals[item] == n
  {
  }

  /** The global `stock_data`: a dict from item name to quantity. */
  class Stock {
    var data: Dict

    ghost predicate Valid()
      reads this
    {
      data.Valid()
    }

    /** The store at process start: empty. */
    constructor ()
      ensures Valid() && data == Dict(map[], [])
    {
      data := Dict(map[], []);
    }

    /** get_qty: the stored quantity, 0 for an item that is not stored. */
    function GetQty(item: string): (r: int)
      reads this
      ensures item in data.vals ==> r == data.vals[item]
      ensures item !in data.vals ==> r == 0
    {
      data.Get(item, 0)
    }

    /** check_low_items: exactly the stored items whose quantity is strictly
        below `threshold`, each once, in the store's iteration order. An item
        that is not stored is never listed, although its get_qty is 0. */
    function CheckLowItems(threshold: int): (r: seq<string>)
      reads this
      requires Valid()
      ensures forall k :: k in r <==> k in data.vals && data.vals[k] < threshold
      ensures Distinct(r)
      ensures IsSubsequence(r, data.keys)
    {
      LowKeys(data.keys, data.vals, threshold)
    }

    /** save_data: the pairs written out as one JSON object, in iteration
        order; loading them back gives the same store. */
    function SaveData(): (r: seq<(string, int)>)
      reads this
      requires Valid()
      ensures |r| == |data.keys|
      ensures forall i :: 0 <= i < |r| ==> r[i] == (data.keys[i], data.vals[data.keys[i]])
      ensures Dict.FromItems(r) == data
    {
      ItemsRoundTrip(data);
      data.Items()
    }

    /** add_item. The store becomes AddedTo of the old one. Arguments of the
        wrong type leave the caller's log alone; accepted ones append exactly
        one entry to it, keeping the earlier ones. A null `logs` stands for
        the default `None`: a fresh list gets the entry and is dropped, and
        the store changes the same way. */
    method AddItem(item: Value, qty: Value, logs: AuditLog?)
      requires Valid()
      modifies this, logs
      ensures Valid()
      ensures data == AddedTo(old(data), item, qty)
      ensures logs != null && CheckAddArgs(item, qty).Failure? ==> logs.entries == old(logs.entries)
      ensures logs != null && CheckAddArgs(item, qty).Success? ==>
                logs.entries == old(logs.entries) + [Added(qty, item.s)]
    {
      var log := logs;
      if log == null {
        log := new AuditLog();
      }
      var args := CheckAddArgs(item, qty);
      if args.Failure? {
        return;
      }
      var (name, n) := args.value;
      data := data.Put(name, data.Get(name, 0) + n);
      log.Append(Added(qty, name));
    }

    /** remove_item. The store becomes RemovedFrom of the old one: the
        KeyError of an absent item is raised before any write and caught;
        for a present item the subtraction is written first and the key is
        then deleted when the result is 0 or less. */
    method RemoveItem(item: string, qty: int)
      requires Valid()
      modifies this
      ensures Valid()
      ensures data == RemovedFrom(old(data), item, qty)
    {
      if item !in data.vals {
        return;
      }
      data := data.Put(item, data.vals[item] - qty);
      if data.vals[item] <= 0 {
        data := data.Delete(item);
      }
    }

    /** load_data. `file` is the object read from the file as its key/value
        pairs in document order, or None when the file does not exist, in
        which case the store is left unchanged. Otherwise the store is
        replaced wholesale by the dict those pairs build. */
    method LoadData(file: Option<seq<(string, int)>>)
      requires Valid()
      modifies this
      ensures Valid()
      ensures file.None? ==> data == old(data)
      ensures file.Some? ==> data == Dict.FromItems(file.value)
    {
      if file.Some? {
        data := Dict.FromItems(file.value);
      }
    }
  }

  /** The store main starts with and the three it passes through: after
      adding 10 apples, after adding -2 bananas, after removing 3 apples. */
  function DemoStore(step: nat): (d: Dict)
    requires step <= 3
    ensures d.Valid()
  {
    if step == 0 then Dict(map[], [])
    else if step == 1 then Dict(map["apple" := 10], ["apple"])
    else if step == 2 then Dict(map["apple" := 10, "banana" := -2], ["apple", "banana"])
    else Dict(map["apple" := 7, "banana" := -2], ["apple", "banana"])
  }

  /** add_item("apple", 10) on the empty store. */
  lemma DemoAddApple()
    ensures AddedTo(DemoStore(0), Str("apple"), Int(10)) == DemoStore(1)
  {
    assert CheckAddArgs(Str("apple"), Int(10)) == Success(("apple", 10));
    assert DemoStore(0).Put("apple", 10) == DemoStore(1);
  }

  /** add_item("banana", -2) appends banana with its negative quantity; the
      add of 123 / "ten" that follows is rejected. */
  lemma DemoAddBanana()
    ensures AddedTo(DemoStore(1), Str("banana"), Int(-2)) == DemoStore(2)
    ensures AddedTo(DemoStore(2), Int(123), Str("ten")) == DemoStore(2)
  {
    assert CheckAddArgs(Str("banana"), Int(-2)) == Success(("banana", -2));
    assert "banana" !in DemoStore(1).vals;
    assert DemoStore(1).Put("banana", -2) == DemoStore(2);
  }

  /** remove_item("apple", 3) leaves 7 apples in place; remove_item("orange", 1)
      finds no orange and changes nothing. */
  lemma DemoRemoves()
    ensures RemovedFrom(DemoStore(2), "apple", 3) == DemoStore(3)
    ensures RemovedFrom(DemoStore(3), "orange", 1) == DemoStore(3)
  {
    assert DemoStore(2).vals["apple" := 7] == DemoStore(3).vals;
  }

  /** At the default threshold only banana is low in the final store. */
  lemma DemoLow()
    ensures LowKeys(DemoStore(3).keys, DemoStore(3).vals, DefaultThreshold) == ["banana"]
  {
    assert DemoStore(3).keys[1..] == ["banana"];
    assert ["banana"][1..] == [];
  }

  /** What save_data writes for the final store. */
  lemma DemoSaved()
    ensures DemoStore(3).Items() == [("apple", 7), ("banana", -2)]
  {
  }

  /** The mutations main makes, from an empty store. */
  method DemoMutations() returns (stock: Stock)
    ensures fresh(stock) && stock.Valid()
    ensures stock.data == DemoStore(3)
  {
    DemoAddApple();
    DemoAddBanana();
    DemoRemoves();
    stock := new Stock();
    stock.AddItem(Str("apple"), Int(10), null);
    stock.AddItem(Str("banana"), Int(-2), null);
    stock.AddItem(Int(123), Str("ten"), null);
    stock.RemoveItem("apple", 3);
    stock.RemoveItem("orange", 1);
  }

  /** The call sequence of main: apple ends at 7, banana at -2 is the only
      low item at the default threshold, and saving then loading restores
      the same two items in the same order. */
  method Demo() returns (apple: int, low: seq<string>, reloaded: seq<(string, int)>)
    ensures apple == 7
    ensures low == ["banana"]
    ensures reloaded == [("apple", 7), ("banana", -2)]
  {
    var stock := DemoMutations();
    DemoLow();
    DemoSaved();
    apple := stock.GetQty("apple");
    low := stock.CheckLowItems(DefaultThreshold);
    var saved := stock.SaveData();
    stock.LoadData(Some(saved));
    assert stock.data == DemoStore(3);
    reloaded := stock.SaveData();
  }
}
