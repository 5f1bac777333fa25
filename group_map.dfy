/** The `BTreeMap<String, Vec<V>>` that build_dict groups its entries in,
    modelled by what a caller of the map can observe: a sequence of groups
    whose keys are strictly ascending (the map's iteration order) and whose
    member lists are never empty (a key exists only once something was
    pushed under it). */
module GroupMap {
  import opened ByteOrder

  datatype Group<V> = Group(key: Key, members: seq<V>)

  /** The keys in iteration order. */
  function Keys<V>(gs: seq<Group<V>>): (ks: seq<Key>)
    ensures |ks| == |gs|
    ensures forall i :: 0 <= i < |gs| ==> ks[i] == gs[i].key
  {
    seq(|gs|, i requires 0 <= i < |gs| => gs[i].key)
  }

  ghost predicate Valid<V>(gs: seq<Group<V>>)
  {
    && StrictlyAscending(Keys(gs))
    && forall i :: 0 <= i < |gs| ==> gs[i].members != []
  }

  /** The map's value under `key`, or the empty list when the key is absent. */
  function Lookup<V>(gs: seq<Group<V>>, key: Key): seq<V>
  {
    if gs == [] then []
    else if gs[0].key == key then gs[0].members
    else Lookup(gs[1..], key)
  }

  lemma {:induction false} LookupAbsent<V>(gs: seq<Group<V>>, key: Key)
    requires key !in Keys(gs)
    ensures Lookup(gs, key) == []
  {
    if gs != [] {
      assert Keys(gs[1..]) == Keys(gs)[1..];
      LookupAbsent(gs[1..], key);
    }
  }

  /** In a valid map the i-th group is what a lookup of its key returns. */
  lemma {:induction false} LookupAt<V>(gs: seq<Group<V>>, i: nat)
    requires Valid(gs) && i < |gs|
    ensures Lookup(gs, gs[i].key) == gs[i].members
  {
    if i > 0 {
      AscendingDistinct(Keys(gs), 0, i);
      assert Keys(gs[1..]) == Keys(gs)[1..];
      LookupAt(gs[1..], i - 1);
    }
  }

  /** A key is present exactly when a lookup finds a non-empty list. */
  lemma LookupPresent<V>(gs: seq<Group<V>>, key: Key)
    requires Valid(gs)
    ensures key in Keys(gs) <==> Lookup(gs, key) != []
  {
    if key in Keys(gs) {
      var i :| 0 <= i < |gs| && Keys(gs)[i] == key;
      LookupAt(gs, i);
    } else {
      LookupAbsent(gs, key);
    }
  }

  /** Looking up in a map with one more group in front. */
  lemma LookupCons<V>(g: Group<V>, gs: seq<Group<V>>, k: Key)
    ensures Lookup([g] + gs, k) == if g.key == k then g.members else Lookup(gs, k)
  {
    assert ([g] + gs)[1..] == gs;
  }

  /** A group whose key is below every key of a valid map can go in front. */
  lemma ConsValid<V>(g: Group<V>, gs: seq<Group<V>>)
    requires Valid(gs) && g.members != []
    requires forall k :: k in Keys(gs) ==> Below(g.key, k)
    ensures Valid([g] + gs)
  {
    var r := [g] + gs;
    assert Keys(r) == [g.key] + Keys(gs);
    forall i, j | 0 <= i < j < |r|
      ensures Below(Keys(r)[i], Keys(r)[j])
    {
      if i == 0 {
        assert Keys(r)[j] == Keys(gs)[j - 1];
      } else {
        assert Keys(r)[i] == Keys(gs)[i - 1] && Keys(r)[j] == Keys(gs)[j - 1];
      }
    }
  }

  /** Every key of a valid map is at or above its first key. */
  lemma BelowRest<V>(gs: seq<Group<V>>, key: Key)
    requires Valid(gs) && gs != [] && Below(key, gs[0].key)
    ensures forall k :: k in Keys(gs) ==> Below(key, k)
  {
    forall k | k in Keys(gs)
      ensures Below(key, k)
    {
      var j :| 0 <= j < |gs| && Keys(gs)[j] == k;
      if j > 0 {
        assert Below(Keys(gs)[0], Keys(gs)[j]);
        BelowTransitive(key, gs[0].key, k);
      }
    }
  }

  /** The tail of a valid map is valid. */
  lemma TailValid<V>(gs: seq<Group<V>>)
    requires Valid(gs) && gs != []
    ensures Valid(gs[1..])
    ensures forall k :: k in Keys(gs[1..]) ==> Below(gs[0].key, k)
  {
    assert Keys(gs[1..]) == Keys(gs)[1..];
    forall k | k in Keys(gs[1..])
      ensures Below(gs[0].key, k)
    {
      var j :| 0 <= j < |gs| - 1 && Keys(gs[1..])[j] == k;
      assert Below(Keys(gs)[0], Keys(gs)[j + 1]);
    }
  }

  /** `map.entry(key).or_insert_with(Vec::new).push(v)`: append `v` to the
      list under `key`, creating the key at its sorted position if absent. */
  function PushEntry<V>(gs: seq<Group<V>>, key: Key, v: V): seq<Group<V>>
  {
    if gs == [] then [Group(key, [v])]
    else if gs[0].key == key then [Group(key, gs[0].members + [v])] + gs[1..]
    else if Below(key, gs[0].key) then [Group(key, [v])] + gs
    else [gs[0]] + PushEntry(gs[1..], key, v)
  }

  /** What the push does to the map: it stays sorted and duplicate-free,
      gains `key` if it was absent, and only the list under `key` changes,
      by one element at its end. */
  ghost predicate PushedAs<V>(gs: seq<Group<V>>, key: Key, v: V, r: seq<Group<V>>)
  {
    && Valid(r)
    && (forall k :: k in Keys(r) <==> k in Keys(gs) || k == key)
    && (forall k :: Lookup(r, k) == if k == key then Lookup(gs, k) + [v] else Lookup(gs, k))
  }

  lemma {:induction false} PushEntryCorrect<V>(gs: seq<Group<V>>, key: Key, v: V)
    requires Valid(gs)
    ensures PushedAs(gs, key, v, PushEntry(gs, key, v))
  {
    if gs == [] {
      PushIntoEmpty(key, v);
    } else {
      TailValid(gs);
      if gs[0].key == key {
        PushIntoFirst(gs, key, v);
      } else if Below(key, gs[0].key) {
        PushInFront(gs, key, v);
      } else {
        PushEntryCorrect(gs[1..], key, v);
        PushBehind(gs, key, v);
      }
    }
  }

  lemma PushIntoEmpty<V>(key: Key, v: V)
    ensures PushedAs([], key, v, PushEntry([], key, v))
  {
    var g: Group<V> := Group(key, [v]);
    var r := [g] + [];
    assert r == PushEntry([], key, v);
    ConsValid(g, []);
    assert Keys(r) == [key];
    forall k
      ensures Lookup(r, k) == if k == key then [v] else []
    {
      LookupCons(g, [], k);
    }
  }

  lemma PushIntoFirst<V>(gs: seq<Group<V>>, key: Key, v: V)
    requires Valid(gs) && gs != [] && gs[0].key == key
    ensures PushedAs(gs, key, v, PushEntry(gs, key, v))
  {
    TailValid(gs);
    var rest := gs[1..];
    var g := Group(key, gs[0].members + [v]);
    var r := [g] + rest;
    assert r == PushEntry(gs, key, v);
    assert Keys(r) == Keys(gs) by {
      assert forall i :: 0 <= i < |r| ==> r[i].key == gs[i].key;
    }
    ConsValid(g, rest);
    forall k
      ensures Lookup(r, k) == if k == key then Lookup(gs, k) + [v] else Lookup(gs, k)
    {
      LookupCons(g, rest, k);
    }
  }

  lemma PushInFront<V>(gs: seq<Group<V>>, key: Key, v: V)
    requires Valid(gs) && gs != [] && Below(key, gs[0].key)
    ensures PushedAs(gs, key, v, PushEntry(gs, key, v))
  {
    var g := Group(key, [v]);
    var r := [g] + gs;
    BelowRest(gs, key);
    BelowIrreflexive(key);
    ConsValid(g, gs);
    assert Keys(r) == [key] + Keys(gs);
    LookupAbsent(gs, key);
    forall k
      ensures Lookup(r, k) == if k == key then Lookup(gs, k) + [v] else Lookup(gs, k)
    {
      LookupCons(g, gs, k);
    }
  }

  lemma PushBehind<V>(gs: seq<Group<V>>, key: Key, v: V)
    requires Valid(gs) && gs != [] && gs[0].key != key && !Below(key, gs[0].key)
    requires Valid(gs[1..]) && PushedAs(gs[1..], key, v, PushEntry(gs[1..], key, v))
    ensures PushedAs(gs, key, v, PushEntry(gs, key, v))
  {
    TailValid(gs);
    var rest := gs[1..];
    var tail := PushEntry(rest, key, v);
    var r := [gs[0]] + tail;
    BelowTotal(key, gs[0].key);
    ConsValid(gs[0], tail);
    assert Keys(r) == [gs[0].key] + Keys(tail);
    assert Keys(gs) == [gs[0].key] + Keys(rest);
    forall k
      ensures Lookup(r, k) == if k == key then Lookup(gs, k) + [v] else Lookup(gs, k)
    {
      LookupCons(gs[0], tail, k);
    }
  }

  /** All lists of the map concatenated in key order: what iterating over
      `map.values()` and then over each list visits. */
  function Flatten<V>(gs: seq<Group<V>>): seq<V>
  {
    if gs == [] then [] else gs[0].members + Flatten(gs[1..])
  }

  lemma {:induction false} FlattenSnoc<V>(gs: seq<Group<V>>, k: nat)
    requires k < |gs|
    ensures Flatten(gs[..k + 1]) == Flatten(gs[..k]) + gs[k].members
  {
    if k > 0 {
      assert gs[..k + 1][1..] == gs[1..][..k];
      assert gs[..k][1..] == gs[1..][..k - 1];
      FlattenSnoc(gs[1..], k - 1);
    } else {
      assert gs[..1][1..] == [];
    }
  }

  /** The k-th list sits in the flattened stream right after the lists of
      the groups before it. */
  lemma {:induction false} FlattenSlice<V>(gs: seq<Group<V>>, k: nat)
    requires k < |gs|
    ensures |Flatten(gs[..k])| + |gs[k].members| <= |Flatten(gs)|
    ensures Flatten(gs)[|Flatten(gs[..k])|..|Flatten(gs[..k])| + |gs[k].members|] == gs[k].members
  {
    if k == 0 {
      assert gs[..0] == [];
    } else {
      FlattenSlice(gs[1..], k - 1);
      assert gs[..k][1..] == gs[1..][..k - 1];
      assert gs[..k][0] == gs[0];
      assert Flatten(gs[..k]) == gs[0].members + Flatten(gs[1..][..k - 1]);
    }
  }

  /** A push adds exactly one element to the flattened stream. */
  lemma {:induction false} FlattenPush<V>(gs: seq<Group<V>>, key: Key, v: V)
    ensures |Flatten(PushEntry(gs, key, v))| == |Flatten(gs)| + 1
  {
    if gs == [] {
    } else if gs[0].key == key {
      assert ([Group(key, gs[0].members + [v])] + gs[1..])[1..] == gs[1..];
    } else if Below(key, gs[0].key) {
      assert ([Group(key, [v])] + gs)[1..] == gs;
    } else {
      FlattenPush(gs[1..], key, v);
      assert ([gs[0]] + PushEntry(gs[1..], key, v))[1..] == PushEntry(gs[1..], key, v);
    }
  }
}
