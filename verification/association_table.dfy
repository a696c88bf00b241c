/** `AssociationTable` from association_table.py: a dict that, on
    construction, also files every value as a key of its own key. */
module AssociationTables {
  import opened Outcomes

  /** The Python values stored in a table. */
  datatype Value = NoneV | IntV(i: int) | StrV(s: string)

  /** Python truthiness: `None`, `0` and `""` are false. */
  predicate Truthy(v: Value)
  {
    match v
    case NoneV => false
    case IntV(i) => i != 0
    case StrV(s) => s != ""
  }

  datatype Table = Table(d: map<Value, Value>)

  /** `dict.get`: the bound value, or `None` for an absent key. */
  function Lookup(d: map<Value, Value>, key: Value): (v: Value)
    ensures key !in d ==> v == NoneV
    ensures key in d ==> v == d[key]
  {
    if key in d then d[key] else NoneV
  }

  /** `table.get(key)`: never raises. */
  function Get(t: Table, key: Value): (v: Value)
    ensures key !in t.d ==> v == NoneV
    ensures key in t.d ==> v == t.d[key]
  {
    Lookup(t.d, key)
  }

  /** `table[key]`: also never raises, and answers as `get` does. */
  function Index(t: Table, key: Value): (v: Value)
    ensures v == Get(t, key)
    ensures key !in t.d ==> v == NoneV
  {
    Lookup(t.d, key)
  }

  /** `table[key] = value`: refused with `ValueError` when the key is bound
      to a truthy value; a key that is absent or bound to `None`, `0` or
      `""` counts as free. On refusal the table is left as it was. */
  function SetItem(t: Table, key: Value, value: Value): (r: Result<Table>)
    ensures r.Raise? <==> Truthy(Get(t, key))
    ensures r.Raise? ==> r.error == ValueError
    ensures r.Ok? ==> Get(r.value, key) == value && key in r.value.d
    ensures r.Ok? ==> r.value.d.Keys == t.d.Keys + {key}
    ensures r.Ok? ==> forall k :: k != key ==> Get(r.value, k) == Get(t, k)
  {
    if Truthy(Lookup(t.d, key)) then Raise(ValueError) else Ok(Table(t.d[key := value]))
  }

  /** Nothing stops an item from being associated with itself: a key that
      is free accepts itself as its value. */
  lemma SelfAssociationAccepted(t: Table, key: Value)
    requires !Truthy(Get(t, key))
    ensures SetItem(t, key, key).Ok? && Get(SetItem(t, key, key).value, key) == key
  {
  }

  /** The keys of a Python dict in insertion order: each once, and exactly
      the keys of the map. */
  predicate ListsKeys(keys: seq<Value>, d: map<Value, Value>)
  {
    && (forall i, j :: 0 <= i < j < |keys| ==> keys[i] != keys[j])
    && (forall k :: k in d ==> k in keys)
    && (forall i :: 0 <= i < |keys| ==> keys[i] in d)
  }

  /** No two keys share a value, and no value is also a key. */
  ghost predicate OneToOneApart(d: map<Value, Value>)
  {
    && (forall k1, k2 :: k1 in d && k2 in d && k1 != k2 ==> d[k1] != d[k2])
    && (forall k :: k in d ==> d[k] !in d)
  }

  /** The values the first `i` keys of `keys` have in `d`. */
  ghost function FiledValues(keys: seq<Value>, d: map<Value, Value>, i: nat): set<Value>
    requires ListsKeys(keys, d) && i <= |keys|
  {
    set j | 0 <= j < i :: d[keys[j]]
  }

  /** The input's keys stay, and its truthy entries are never overwritten. */
  ghost predicate KeepsInput(d: map<Value, Value>, t: Table)
  {
    && d.Keys <= t.d.Keys
    && (forall k :: k in d && Truthy(d[k]) ==> t.d[k] == d[k])
  }

  /** A truthy input key either still has its input value, or has been
      refiled under a key whose value is that key itself. */
  ghost predicate Anchored(d: map<Value, Value>, t: Table)
    requires d.Keys <= t.d.Keys
  {
    forall k :: k in d && Truthy(k) ==> t.d[k] == d[k] || Lookup(t.d, t.d[k]) == k
  }

  /** Each filed truthy key is its value's partner. */
  ghost predicate Linked(keys: seq<Value>, d: map<Value, Value>, t: Table, i: nat)
    requires ListsKeys(keys, d) && i <= |keys|
  {
    forall j :: 0 <= j < i && Truthy(keys[j]) ==> Lookup(t.d, d[keys[j]]) == keys[j]
  }

  /** No filed entry with a truthy key or a truthy value had as its value a
      key with a truthy value. */
  ghost predicate NoKeyClash(keys: seq<Value>, d: map<Value, Value>, i: nat)
    requires ListsKeys(keys, d) && i <= |keys|
  {
    forall j :: 0 <= j < i && (Truthy(keys[j]) || Truthy(d[keys[j]])) ==> !Truthy(Lookup(d, d[keys[j]]))
  }

  /** No two filed truthy keys share a value. */
  ghost predicate NoSharedValue(keys: seq<Value>, d: map<Value, Value>, i: nat)
    requires ListsKeys(keys, d) && i <= |keys|
  {
    forall j1, j2 ::
      0 <= j1 < i && 0 <= j2 < i && j1 != j2 && Truthy(keys[j1]) && Truthy(keys[j2])
      ==> d[keys[j1]] != d[keys[j2]]
  }

  /** For one-to-one input apart from its keys: the table is the input plus
      the reversed filed entries. */
  ghost predicate Mirrors(keys: seq<Value>, d: map<Value, Value>, t: Table, i: nat)
    requires ListsKeys(keys, d) && i <= |keys|
  {
    OneToOneApart(d) ==>
      && t.d.Keys == d.Keys + FiledValues(keys, d, i)
      && (forall k :: k in d ==> t.d[k] == d[k])
      && (forall j :: 0 <= j < i ==> t.d[d[keys[j]]] == keys[j])
  }

  /** What holds after the first `i` keys of the input `d` have been filed
      into the table `t`. */
  ghost predicate Filed(keys: seq<Value>, d: map<Value, Value>, t: Table, i: nat)
    requires ListsKeys(keys, d) && i <= |keys|
  {
    && KeepsInput(d, t)
    && Anchored(d, t)
    && Linked(keys, d, t, i)
    && NoKeyClash(keys, d, i)
    && NoSharedValue(keys, d, i)
    && Mirrors(keys, d, t, i)
  }

  /** Filing the next key keeps `Filed`, when `SetItem` accepts it. */
  lemma FileStep(keys: seq<Value>, d: map<Value, Value>, t: Table, i: nat)
    requires ListsKeys(keys, d) && i < |keys| && Filed(keys, d, t, i)
    requires !Truthy(Lookup(t.d, t.d[keys[i]]))
    ensures Filed(keys, d, Table(t.d[t.d[keys[i]] := keys[i]]), i + 1)
  {
    AnchoredStep(d, t, keys[i]);
    LinkedStep(keys, d, t, i);
    NoKeyClashStep(keys, d, t, i);
    NoSharedValueStep(keys, d, t, i);
    MirrorsStep(keys, d, t, i);
  }

  /** Writing `t[t[item]] := item` into a free key keeps the input's
      truthy entries and keeps every truthy input key anchored. */
  lemma AnchoredStep(d: map<Value, Value>, t: Table, item: Value)
    requires KeepsInput(d, t) && Anchored(d, t) && item in t.d
    requires !Truthy(Lookup(t.d, t.d[item]))
    ensures KeepsInput(d, Table(t.d[t.d[item] := item]))
    ensures Anchored(d, Table(t.d[t.d[item] := item]))
  {
    var v := t.d[item];
    var t' := Table(t.d[v := item]);
    forall k | k in d && Truthy(k)
      ensures t'.d[k] == d[k] || Lookup(t'.d, t'.d[k]) == k
    {
      if k == v {
        assert Lookup(t'.d, item) == k;
      } else if t.d[k] != d[k] {
        assert Lookup(t.d, t.d[k]) == k;
        assert t.d[k] != v;
      }
    }
  }

  /** A truthy key that `SetItem` accepts still has its input value. */
  lemma AcceptedTruthyKeyUnchanged(d: map<Value, Value>, t: Table, item: Value)
    requires KeepsInput(d, t) && Anchored(d, t) && item in d && Truthy(item)
    requires !Truthy(Lookup(t.d, t.d[item]))
    ensures t.d[item] == d[item]
  {
  }

  lemma LinkedStep(keys: seq<Value>, d: map<Value, Value>, t: Table, i: nat)
    requires ListsKeys(keys, d) && i < |keys| && KeepsInput(d, t) && Anchored(d, t) && Linked(keys, d, t, i)
    requires !Truthy(Lookup(t.d, t.d[keys[i]]))
    ensures Linked(keys, d, Table(t.d[t.d[keys[i]] := keys[i]]), i + 1)
  {
    var v := t.d[keys[i]];
    var t' := Table(t.d[v := keys[i]]);
    if Truthy(keys[i]) {
      AcceptedTruthyKeyUnchanged(d, t, keys[i]);
    }
    forall j | 0 <= j <= i && Truthy(keys[j])
      ensures Lookup(t'.d, d[keys[j]]) == keys[j]
    {
      if j < i {
        assert d[keys[j]] != v;
      }
    }
  }

  lemma NoKeyClashStep(keys: seq<Value>, d: map<Value, Value>, t: Table, i: nat)
    requires ListsKeys(keys, d) && i < |keys| && KeepsInput(d, t) && Anchored(d, t) && NoKeyClash(keys, d, i)
    requires !Truthy(Lookup(t.d, t.d[keys[i]]))
    ensures NoKeyClash(keys, d, i + 1)
  {
    var w := d[keys[i]];
    if Truthy(keys[i]) {
      AcceptedTruthyKeyUnchanged(d, t, keys[i]);
    }
    if (Truthy(keys[i]) || Truthy(w)) && w in d && Truthy(d[w]) {
      assert t.d[keys[i]] == w;
      assert t.d[w] == d[w];
    }
  }

  lemma NoSharedValueStep(keys: seq<Value>, d: map<Value, Value>, t: Table, i: nat)
    requires ListsKeys(keys, d) && i < |keys| && KeepsInput(d, t) && Anchored(d, t)
    requires Linked(keys, d, t, i) && NoSharedValue(keys, d, i)
    requires !Truthy(Lookup(t.d, t.d[keys[i]]))
    ensures NoSharedValue(keys, d, i + 1)
  {
    if Truthy(keys[i]) {
      AcceptedTruthyKeyUnchanged(d, t, keys[i]);
      forall j | 0 <= j < i && Truthy(keys[j]) ensures d[keys[j]] != d[keys[i]] {
        assert Lookup(t.d, d[keys[j]]) == keys[j];
      }
    }
  }

  lemma MirrorsStep(keys: seq<Value>, d: map<Value, Value>, t: Table, i: nat)
    requires ListsKeys(keys, d) && i < |keys| && KeepsInput(d, t) && Mirrors(keys, d, t, i)
    ensures Mirrors(keys, d, Table(t.d[t.d[keys[i]] := keys[i]]), i + 1)
  {
    if OneToOneApart(d) {
      var v := d[keys[i]];
      assert FiledValues(keys, d, i + 1) == FiledValues(keys, d, i) + {v};
      forall j | 0 <= j < i ensures d[keys[j]] != v {
        assert keys[j] != keys[i];
      }
    }
  }

  /** One-to-one input apart from its keys never meets a filled key. */
  lemma OneToOneNeverRefused(keys: seq<Value>, d: map<Value, Value>, t: Table, i: nat)
    requires ListsKeys(keys, d) && i < |keys| && Filed(keys, d, t, i) && OneToOneApart(d)
    ensures !Truthy(Lookup(t.d, t.d[keys[i]]))
  {
    var v := d[keys[i]];
    forall j | 0 <= j < i ensures d[keys[j]] != v {
      assert keys[j] != keys[i];
    }
    assert v !in t.d;
  }

  /** What a table with every key filed promises. */
  lemma AllFiled(keys: seq<Value>, d: map<Value, Value>, t: Table)
    requires ListsKeys(keys, d) && Filed(keys, d, t, |keys|)
    ensures forall k :: k in d && Truthy(k) ==> Get(t, d[k]) == k
    ensures !exists k :: k in d && (Truthy(k) || Truthy(d[k])) && Truthy(Lookup(d, d[k]))
    ensures !exists k1, k2 :: k1 in d && k2 in d && k1 != k2 && Truthy(k1) && Truthy(k2) && d[k1] == d[k2]
    ensures OneToOneApart(d) ==>
              && t.d.Keys == d.Keys + d.Values
              && forall k :: k in d ==> Get(t, k) == d[k] && Get(t, d[k]) == k
  {
    forall k | k in d && Truthy(k) ensures Get(t, d[k]) == k {
      var j :| 0 <= j < |keys| && keys[j] == k;
    }
    forall k | k in d && (Truthy(k) || Truthy(d[k])) ensures !Truthy(Lookup(d, d[k])) {
      var j :| 0 <= j < |keys| && keys[j] == k;
    }
    forall k1, k2 | k1 in d && k2 in d && k1 != k2 && Truthy(k1) && Truthy(k2)
      ensures d[k1] != d[k2]
    {
      var j1 :| 0 <= j1 < |keys| && keys[j1] == k1;
      var j2 :| 0 <= j2 < |keys| && keys[j2] == k2;
    }
    if OneToOneApart(d) {
      assert FiledValues(keys, d, |keys|) == d.Values by {
        forall v | v in d.Values ensures v in FiledValues(keys, d, |keys|) {
          var k :| k in d && d[k] == v;
          var j :| 0 <= j < |keys| && keys[j] == k;
        }
      }
      forall k | k in d ensures Get(t, d[k]) == k {
        var j :| 0 <= j < |keys| && keys[j] == k;
      }
    }
  }

  /** `AssociationTable(d)`: for each key of `d`, in insertion order, file
      the key under the value it has at that moment, through `SetItem`. */
  method Construct(keys: seq<Value>, d: map<Value, Value>) returns (r: Result<Table>)
    requires ListsKeys(keys, d)
    ensures r.Raise? ==> r.error == ValueError
    // an entry whose value is truthy is never overwritten
    ensures r.Ok? ==> forall k :: k in d && Truthy(d[k]) ==> k in r.value.d && r.value.d[k] == d[k]
    // every truthy key is the partner of its value
    ensures r.Ok? ==> forall k :: k in d && Truthy(k) ==> Get(r.value, d[k]) == k
    // an entry with a truthy key or a truthy value whose value is already a
    // key with a truthy value is refused
    ensures (exists k :: k in d && (Truthy(k) || Truthy(d[k])) && Truthy(Lookup(d, d[k]))) ==> r.Raise?
    // two truthy keys sharing any value are refused
    ensures (exists k1, k2 :: k1 in d && k2 in d && k1 != k2 && Truthy(k1) && Truthy(k2) && d[k1] == d[k2])
            ==> r.Raise?
    // one-to-one input apart from its keys: accepted, every entry filed both ways
    ensures OneToOneApart(d) ==> r.Ok?
    ensures OneToOneApart(d) && r.Ok? ==>
              && r.value.d.Keys == d.Keys + d.Values
              && forall k :: k in d ==> Get(r.value, k) == d[k] && Get(r.value, d[k]) == k
  {
    var t := Table(d);
    var i := 0;
    assert Anchored(d, t);
    assert FiledValues(keys, d, 0) == {};
    while i < |keys|
      invariant 0 <= i <= |keys|
      invariant Filed(keys, d, t, i)
    {
      var item := keys[i];
      var r' := SetItem(t, t.d[item], item);
      if r'.Raise? {
        if OneToOneApart(d) {
          OneToOneNeverRefused(keys, d, t, i);
        }
        return Raise(r'.error);
      }
      FileStep(keys, d, t, i);
      t := r'.value;
      i := i + 1;
    }
    AllFiled(keys, d, t);
    r := Ok(t);
  }
}
