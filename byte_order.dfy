/** The order of Rust's `String` keys: lexicographic on their UTF-8 bytes,
    a proper prefix coming first. This is the order in which a `BTreeMap`
    with `String` keys yields its entries, and the order the double-array
    trie builder expects its keys in. */
module ByteOrder {
  import opened Ints

  type Key = seq<byte>

  /** `a < b` in byte-lexicographic order. */
  predicate Below(a: Key, b: Key)
  {
    if a == [] then b != []
    else if b == [] then false
    else if a[0] != b[0] then a[0] < b[0]
    else Below(a[1..], b[1..])
  }

  lemma {:induction false} BelowIrreflexive(a: Key)
    ensures !Below(a, a)
  {
    if a != [] {
      BelowIrreflexive(a[1..]);
    }
  }

  lemma {:induction false} BelowTransitive(a: Key, b: Key, c: Key)
    requires Below(a, b) && Below(b, c)
    ensures Below(a, c)
  {
    if a != [] && a[0] == b[0] && b[0] == c[0] {
      BelowTransitive(a[1..], b[1..], c[1..]);
    }
  }

  /** Any two distinct keys are ordered one way or the other, never both. */
  lemma {:induction false} BelowTotal(a: Key, b: Key)
    ensures a == b || Below(a, b) || Below(b, a)
    ensures !(Below(a, b) && Below(b, a))
  {
    if a != [] && b != [] && a[0] == b[0] {
      BelowTotal(a[1..], b[1..]);
      if a[1..] == b[1..] {
        assert a == [a[0]] + a[1..] && b == [b[0]] + b[1..];
      }
    }
  }

  /** Keys in strictly ascending order: sorted and without duplicates. */
  ghost predicate StrictlyAscending(keys: seq<Key>)
  {
    forall i, j :: 0 <= i < j < |keys| ==> Below(keys[i], keys[j])
  }

  /** Strictly ascending keys are pairwise distinct. */
  lemma AscendingDistinct(keys: seq<Key>, i: nat, j: nat)
    requires StrictlyAscending(keys)
    requires i < |keys| && j < |keys| && i != j
    ensures keys[i] != keys[j]
  {
    if i < j {
      BelowIrreflexive(keys[i]);
    } else {
      BelowIrreflexive(keys[j]);
    }
  }
}
