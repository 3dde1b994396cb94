/** A Python `dict` from `str` to `int`, as the inventory store uses it.
    Python dictionaries remember insertion order: assigning to a key that is
    already present keeps its position, a new key goes to the end, and `del`
    removes the key from the order. The value is therefore a map together with
    the sequence of its keys in iteration order. */
module PyDict {

  /** No element occurs twice. */
  ghost predicate Distinct(s: seq<string>) {
    forall i, j :: 0 <= i < j < |s| ==> s[i] != s[j]
  }

  /** `r` is obtained from `s` by dropping elements, keeping the order of the rest. */
  ghost predicate IsSubsequence(r: seq<string>, s: seq<string>)
    decreases |s|
  {
    if r == [] then true
    else if s == [] then false
    else if r[0] == s[0] then IsSubsequence(r[1..], s[1..])
    else IsSubsequence(r, s[1..])
  }

  /** Every element of a subsequence occurs in the sequence. */
  lemma {:induction false} SubsequenceMembers(r: seq<string>, s: seq<string>)
    requires IsSubsequence(r, s)
    ensures forall y :: y in r ==> y in s
    decreases |s|
  {
    if r != [] {
      if r[0] == s[0] {
        SubsequenceMembers(r[1..], s[1..]);
        forall y | y in r ensures y in s {
          if y != r[0] { assert y in r[1..]; }
        }
      } else {
        SubsequenceMembers(r, s[1..]);
      }
    }
  }

  /** In a sequence without repetitions, a subsequence is fixed by its set of
      elements: two subsequences with the same elements are equal. */
  lemma {:induction false} SubsequenceDetermined(r1: seq<string>, r2: seq<string>, s: seq<string>)
    requires Distinct(s)
    requires IsSubsequence(r1, s) && IsSubsequence(r2, s)
    requires forall y :: y in r1 <==> y in r2
    ensures r1 == r2
    decreases |s|
  {
    if s != [] {
      var x, t := s[0], s[1..];
      assert Distinct(t);
      assert x !in t;
      var q1 := Tail(r1, s);
      var q2 := Tail(r2, s);
      if x in r1 {
        assert forall y :: y in q1 <==> y in q2 by {
          forall y ensures y in q1 <==> y in q2 {
            assert y in q1 <==> y in r1 && y != x;
            assert y in q2 <==> y in r2 && y != x;
          }
        }
        SubsequenceDetermined(q1, q2, t);
      } else {
        SubsequenceDetermined(q1, q2, t);
      }
    }
  }

  /** Helper of SubsequenceDetermined: what remains of a subsequence `r` of a
      repetition-free `s` once the first element of `s` is consumed. */
  lemma {:induction false} Tail(r: seq<string>, s: seq<string>) returns (q: seq<string>)
    requires Distinct(s) && s != [] && IsSubsequence(r, s)
    ensures IsSubsequence(q, s[1..])
    ensures s[0] in r ==> r == [s[0]] + q
    ensures s[0] !in r ==> r == q
    ensures forall y :: y in q <==> y in r && y != s[0]
  {
    assert s[0] !in s[1..];
    if r != [] && r[0] == s[0] {
      q := r[1..];
      SubsequenceMembers(q, s[1..]);
      assert r == [s[0]] + q;
    } else {
      q := r;
      SubsequenceMembers(q, s[1..]);
    }
  }

  /** `s` with every occurrence of `x` taken out, the rest in order. */
  function Without(s: seq<string>, x: string): (r: seq<string>)
    ensures forall y :: y in r <==> y in s && y != x
    ensures IsSubsequence(r, s)
    ensures Distinct(s) ==> Distinct(r)
  {
    if s == [] then []
    else if s[0] == x then
      var rest := Without(s[1..], x);
      assert rest == [] || rest[0] in rest;
      rest
    else
      var rest := Without(s[1..], x);
      assert Distinct(s) ==> s[0] !in s[1..];
      [s[0]] + rest
  }

  /** A dict value: the key/value bindings and the keys in iteration order. */
  datatype Dict = Dict(vals: map<string, int>, keys: seq<string>) {

    /** The keys in `keys` are exactly the bound ones, each once. */
    ghost predicate Valid() {
      && Distinct(keys)
      && (forall k :: k in keys <==> k in vals)
    }

    /** `d.get(k, default)` */
    function Get(k: string, default: int): (r: int)
      ensures k in vals ==> r == vals[k]
      ensures k !in vals ==> r == default
    {
      if k in vals then vals[k] else default
    }

    /** `d[k] = v`: binds `k` to `v`, leaves every other binding alone, keeps
        the position of a present key and appends a new one. */
    function Put(k: string, v: int): (r: Dict)
      requires Valid()
      ensures r.Valid()
      ensures r.vals == vals[k := v]
      ensures k in vals ==> r.keys == keys
      ensures k !in vals ==> r.keys == keys + [k]
    {
      if k in vals then Dict(vals[k := v], keys)
      else Dict(vals[k := v], keys + [k])
    }

    /** `del d[k]` on a present key: unbinds `k` only, and the remaining keys
        keep their relative order. */
    function Delete(k: string): (r: Dict)
      requires Valid() && k in vals
      ensures r.Valid()
      ensures r.vals == vals - {k}
      ensures IsSubsequence(r.keys, keys)
    {
      Dict(vals - {k}, Without(keys, k))
    }

    /** `d.items()`, in iteration order. */
    function Items(): (r: seq<(string, int)>)
      requires Valid()
      ensures |r| == |keys|
      ensures forall i :: 0 <= i < |r| ==> r[i].0 == keys[i] && r[i].1 == vals[keys[i]]
    {
      seq(|keys|, i requires 0 <= i < |keys| => (keys[i], vals[keys[i]]))
    }

    /** `dict(items)`: the pairs inserted one after the other, so a repeated
        key keeps the position of its first occurrence and the value of its last. */
    static function FromItems(items: seq<(string, int)>): (r: Dict)
      ensures r.Valid()
      decreases |items|
    {
      if items == [] then Dict(map[], [])
      else FromItems(items[..|items| - 1]).Put(items[|items| - 1].0, items[|items| - 1].1)
    }
  }

  /** The keys named by a list of pairs. */
  ghost function KeysOf(items: seq<(string, int)>): set<string> {
    set i | 0 <= i < |items| :: items[i].0
  }

  /** `dict(items)` binds exactly the keys the pairs name. */
  lemma {:induction false} FromItemsKeys(items: seq<(string, int)>)
    ensures Dict.FromItems(items).vals.Keys == KeysOf(items)
  {
    if items != [] {
      var init, last := items[..|items| - 1], items[|items| - 1];
      FromItemsKeys(init);
      assert items == init + [last];
      FromItemsSnoc(init, last);
      forall k | k in KeysOf(items) ensures k in KeysOf(init) + {last.0} {
        var i :| 0 <= i < |items| && items[i].0 == k;
        if i < |items| - 1 { assert init[i].0 == k; }
      }
      forall k | k in KeysOf(init) ensures k in KeysOf(items) {
        var i :| 0 <= i < |init| && init[i].0 == k;
        assert items[i].0 == k;
      }
    }
  }

  /** No later pair than the `i`-th names the same key. */
  ghost predicate LastFor(items: seq<(string, int)>, i: nat)
    requires i < |items|
  {
    forall j :: i < j < |items| ==> items[j].0 != items[i].0
  }

  /** `dict(items)` binds each key to the value of its last pair. */
  lemma {:induction false} FromItemsLast(items: seq<(string, int)>, i: nat)
    requires i < |items| && LastFor(items, i)
    ensures items[i].0 in Dict.FromItems(items).vals
    ensures Dict.FromItems(items).vals[items[i].0] == items[i].1
  {
    var init, last := items[..|items| - 1], items[|items| - 1];
    assert items == init + [last];
    FromItemsSnoc(init, last);
    if i < |items| - 1 {
      assert last.0 != items[i].0;
      assert LastFor(init, i) by {
        forall j | i < j < |init| ensures init[j].0 != init[i].0 {
          assert init[j] == items[j];
        }
      }
      FromItemsLast(init, i);
    }
  }

  /** The first `n` keys of a dict with their values. */
  ghost function Prefix(d: Dict, n: nat): Dict
    requires d.Valid() && n <= |d.keys|
  {
    Dict(map k | k in d.keys[..n] :: d.vals[k], d.keys[..n])
  }

  /** Assigning to a present key and then deleting it is deleting it. */
  lemma PutThenDelete(d: Dict, k: string, v: int)
    requires d.Valid() && k in d.vals
    ensures d.Put(k, v).Delete(k) == d.Delete(k)
  {
    assert d.vals[k := v] - {k} == d.vals - {k};
  }

  /** `dict` over one more pair is one more assignment. */
  lemma FromItemsSnoc(items: seq<(string, int)>, p: (string, int))
    ensures Dict.FromItems(items + [p]) == Dict.FromItems(items).Put(p.0, p.1)
  {
    assert (items + [p])[..|items|] == items;
  }

  /** Extending a prefix by one key adds that key's binding at the end. */
  lemma PrefixStep(d: Dict, n: nat)
    requires d.Valid() && 0 < n <= |d.keys|
    ensures d.keys[n - 1] !in Prefix(d, n - 1).vals
    ensures Prefix(d, n) == Dict(Prefix(d, n - 1).vals[d.keys[n - 1] := d.vals[d.keys[n - 1]]],
                                 Prefix(d, n - 1).keys + [d.keys[n - 1]])
  {
    var k := d.keys[n - 1];
    assert d.keys[..n] == d.keys[..n - 1] + [k];
    assert k !in d.keys[..n - 1];
  }

  /** Inserting the first `n` items of a dict, in order, rebuilds its first `n` keys. */
  lemma {:induction false} FromItemsPrefix(d: Dict, n: nat)
    requires d.Valid() && n <= |d.keys|
    ensures Dict.FromItems(d.Items()[..n]) == Prefix(d, n)
  {
    var items := d.Items();
    if n == 0 {
      assert items[..0] == [];
    } else {
      FromItemsPrefix(d, n - 1);
      var k := d.keys[n - 1];
      assert items[..n] == items[..n - 1] + [(k, d.vals[k])];
      FromItemsSnoc(items[..n - 1], (k, d.vals[k]));
      PrefixStep(d, n);
    }
  }

  /** `dict(d.items())` equals `d`: same bindings, same order. */
  lemma {:induction false} ItemsRoundTrip(d: Dict)
    requires d.Valid()
    ensures Dict.FromItems(d.Items()) == d
  {
    FromItemsPrefix(d, |d.keys|);
    assert d.Items()[..|d.keys|] == d.Items();
    assert d.keys[..|d.keys|] == d.keys;
    assert Prefix(d, |d.keys|).vals == d.vals by {
      assert forall k :: k in Prefix(d, |d.keys|).vals <==> k in d.vals;
    }
  }
}
