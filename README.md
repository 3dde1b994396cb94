# Inventory store model

A Dafny model of the in-memory inventory store of `inventory_system.py`. The
store is one process-wide table from item name to integer quantity (the global
`stock_data`). Two operations change it in place: `add_item` and
`remove_item`. `load_data` replaces it: it rebinds the global name to the
dict it has just read. Three only read it: `get_qty`, `check_low_items`, and
`save_data`, which writes it out.

- `py_dict.dfy` (module `PyDict`) models the Python `dict` the store is. A
  `Dict` is a map plus the keys in insertion order. `Put` is `d[k] = v`: a
  present key keeps its place and a new key goes last. `Delete` is `del d[k]`,
  which takes the key out of the order. `Items` is `d.items()`. `FromItems` is
  `dict(pairs)`: a repeated key keeps its first position and gets its last
  value. The module proves that `dict(d.items())` gives back `d`.
- `inventory_system.dfy` (module `InventorySystem`) holds the store as class
  `Stock`, whose field `data` is the dict.
  - `AddItem`, `RemoveItem` and `LoadData` are methods. Each ties the new
    store to a pure function of the old one: `AddedTo`, `RemovedFrom` or
    `Dict.FromItems`. The properties are proved about those functions.
  - `GetQty`, `CheckLowItems` and `SaveData` are functions that read the
    store.
  - The caller's `logs` list is class `AuditLog`.
  - Run-time argument types are the datatype `Value`. A `bool` is an `int`
    to Python's `isinstance`, so `True` adds 1 and `False` adds 0.
  - `Demo` replays the calls of `main` from an empty store.

`load_data` on a missing file catches the error and only logs a warning
(inventory_system.py:84-85). That warning says "Starting with empty
inventory.", but the handler never assigns `stock_data`, so a store that
already holds items keeps them. `LoadData` with `None` leaves the store
unchanged.

## Model

| member | source | states |
|---|---|---|
| `InventorySystem.Stock.constructor` | inventory_system.py:13 | the store starts as an empty dict that satisfies the dict invariant |
| `InventorySystem.CheckAddArgs` | inventory_system.py:28-33 | add_item accepts its arguments exactly when the item is a `str` and the quantity an `int` or a `bool` (counted as 1 or 0). The item is checked first, so a non-string item is reported as such whatever the quantity is |
| `InventorySystem.AddedTo` | inventory_system.py:28-35 | rejected arguments leave the store as it was. Otherwise the item's new quantity is its old one (0 if absent) plus `qty`, with no sign check, so negative results are kept. A new item is appended to the iteration order and a present one keeps its place. Every other key is still bound exactly when it was before, with the same quantity. The result keeps the dict invariant |
| `InventorySystem.Stock.AddItem` | inventory_system.py:16-37 | the store becomes `AddedTo` of the old store, whether `logs` is given or not. With rejected arguments the caller's log is unchanged. With accepted ones exactly one entry is appended after the earlier entries |
| `InventorySystem.AuditLog.constructor` | inventory_system.py:25-26 | the list add_item creates when `logs` is `None` starts empty |
| `InventorySystem.AuditLog.Append` | inventory_system.py:36 | the entry is added at the end and the earlier entries stay |
| `InventorySystem.RemovedFrom` | inventory_system.py:48-56 | an absent item leaves the store unchanged. For a present item with quantity Q, the item is unbound (its quantity reads 0) when Q - qty <= 0, and the store is then exactly the old one with `del` applied to the item; otherwise it holds Q - qty in the same place. The other keys keep their bindings and their order. The result keeps the dict invariant |
| `InventorySystem.Stock.RemoveItem` | inventory_system.py:40-56 | the store becomes `RemovedFrom` of the old store. The subtraction is written first and the key is then deleted when the result is 0 or less |
| `InventorySystem.ReaddedGoesLast` | inventory_system.py:35-51 | an item that remove_item deleted and add_item adds back goes to the end of the order and holds exactly the added quantity |
| `InventorySystem.Stock.GetQty` | inventory_system.py:69 | returns the stored quantity, or 0 for an item that is not stored. It only reads the store |
| `InventorySystem.LowKeys` | inventory_system.py:118 | lists exactly the keys of the given order whose quantity is below the threshold, in that order. The list has no repeats when the order has none |
| `InventorySystem.Stock.CheckLowItems` | inventory_system.py:108-118 | a key is listed exactly when it is stored with a quantity strictly below the threshold. Each key appears once, in the store's iteration order |
| `InventorySystem.LowKeysUnique` | inventory_system.py:118 | any list in iteration order that holds exactly the low items is the low-stock list. Membership and order together determine the result completely |
| `InventorySystem.Stock.SaveData` | inventory_system.py:95-96 | the pairs written out are the store's items in iteration order, and building a dict from them gives back the same store |
| `InventorySystem.Stock.LoadData` | inventory_system.py:79-85 | a missing file leaves the store unchanged. Otherwise the store is replaced wholesale by the dict built from the loaded pairs |
| `InventorySystem.DemoAddApple` | inventory_system.py:123 | adding 10 apples to the empty store gives {apple: 10} |
| `InventorySystem.DemoAddBanana` | inventory_system.py:124-125 | adding -2 bananas appends banana with -2. The add of 123 / "ten" changes nothing |
| `InventorySystem.DemoRemoves` | inventory_system.py:126-127 | removing 3 apples leaves 7 apples in place. Removing an orange that is not stored changes nothing |
| `InventorySystem.DemoLow` | inventory_system.py:129 | at the default threshold 5, the low list of {apple: 7, banana: -2} is ["banana"] |
| `InventorySystem.DemoSaved` | inventory_system.py:130 | save_data of {apple: 7, banana: -2} writes apple then banana, each with its quantity |
| `InventorySystem.DemoMutations` | inventory_system.py:123-127 | main's five mutations, starting from an empty store, leave {apple: 7, banana: -2} in that order |
| `InventorySystem.Demo` | inventory_system.py:123-131 | in main's sequence, get_qty("apple") is 7, check_low_items() is ["banana"], and after saving and loading the store holds the same two items in the same order |
| `PyDict.Dict.Get` | inventory_system.py:35 | `d.get(k, default)` is the value bound to k when k is present and `default` when it is not |
| `PyDict.Dict.Put` | inventory_system.py:35 | `d[k] = v` keeps the dict invariant (keys distinct and exactly the bound ones). It binds k to v and leaves other bindings alone. A present key keeps its position and a new key is appended |
| `PyDict.Dict.Delete` | inventory_system.py:51 | `del d[k]` keeps the dict invariant and unbinds only k. The remaining keys keep their relative order |
| `PyDict.Without` | inventory_system.py:51 | removing a key from the order keeps every other key, keeps their order and adds no repeats |
| `PyDict.PutThenDelete` | inventory_system.py:49-51 | writing a new quantity and then deleting the key has the same effect as deleting it |
| `PyDict.SubsequenceDetermined` | inventory_system.py:118 | within an order without repeats, two sub-lists with the same members are equal |
| `PyDict.Dict.Items` | inventory_system.py:96 | `d.items()` lists each key in iteration order with its value |
| `PyDict.Dict.FromItems` | inventory_system.py:82 | the dict built from a list of pairs satisfies the dict invariant |
| `PyDict.FromItemsKeys` | inventory_system.py:82 | the dict built from pairs binds exactly the keys the pairs name |
| `PyDict.FromItemsLast` | inventory_system.py:82 | the dict built from pairs binds each key to the value of its last pair |
| `PyDict.FromItemsPrefix` | inventory_system.py:82-96 | building a dict from the first n items of a dict gives back its first n keys with their values |
| `PyDict.ItemsRoundTrip` | inventory_system.py:82-96 | `dict(d.items())` equals `d`: the same bindings in the same order |

## Left out

- Logging (`logging.basicConfig` and every `logging` call) is not modelled. It is an observability side effect that writes to a log file.
- The timestamp (`datetime.now()`) in an audit entry is dropped, because it reads a clock. An entry records only the quantity as given and the item.
- `print_data` is not modelled. It only prints to the console.
- File I/O and JSON text in `save_data`/`load_data` are not modelled. `SaveData` yields the pairs that `json.dump` writes. `LoadData` takes the pairs of the parsed JSON object, or `None` for a missing file. An unwritable path (an error the code does not catch), a malformed document (a parse error the code does not catch), a top-level value that is not an object, and values that are not integers are outside the model.
- `main` as a program is not modelled. Its call sequence is the `Demo` scenario, which stops before `print_data`.
- `InventorySystem.Stock.RemoveItem` takes `qty: int`. A non-numeric `qty`, which raises `TypeError` in the code, cannot be expressed. Nor can a numeric `qty` that is not an `int`, which `-=` at inventory_system.py:49 accepts: `remove_item("apple", 2.5)` stores the float 7.5. From then on `get_qty`, `check_low_items` and `add_item` work on a float quantity, and the model, whose quantities are all integers, does not capture that.
- `InventorySystem.Stock` holds the store as a value. `load_data` rebinds the global `stock_data` to a new dict object, so any other reference to the old dict still sees the old contents. The model does not capture the identity of the dict object or aliases to it.
- `InventorySystem.Stock.RemoveItem` and `InventorySystem.Stock.GetQty` take `item: string`. Every stored key is a string, so a hashable non-string item misses: remove_item changes nothing and get_qty returns 0. An unhashable item raises `TypeError`, and that case is not modelled.
- `InventorySystem.Stock.AddItem` has no default arguments (`item="default"`, `qty=0`). A caller passes them explicitly. A `logs` value that is neither `None` nor a list is not modelled. Subclasses of `str`, and subclasses of `int` other than `bool`, are not modelled: `Value` has no case for them.
