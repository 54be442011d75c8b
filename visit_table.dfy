/** The table of active visitors, `visitas_activas`: a dictionary keyed by the
    hash of each visitor's encoding. Python dictionaries keep insertion order:
    assigning to a present key replaces the entry in place, assigning to a new
    key appends, and deleting a key removes its entry. The table is modelled
    as the sequence of its entries in that order. */
module VisitTable {
  import opened Common

  /** One entry of the table. `id` (the database row id) is present only for
      visitors reloaded from the database at startup. */
  datatype Visit = Visit(key: int, id: Option<int>, fileName: string, encoding: Encoding,
                         enteredAt: int, lastSeen: int)

  /** The keys in iteration order. */
  function Keys(t: seq<Visit>): (ks: seq<int>)
    ensures |ks| == |t|
    ensures forall i :: 0 <= i < |t| ==> ks[i] == t[i].key
  {
    seq(|t|, i requires 0 <= i < |t| => t[i].key)
  }

  lemma KeysSnoc(t: seq<Visit>, v: Visit)
    ensures Keys(t + [v]) == Keys(t) + [v.key]
  {
  }

  /** A dictionary holds each key once. */
  ghost predicate KeysDistinct(t: seq<Visit>) {
    forall i, j :: 0 <= i < j < |t| ==> t[i].key != t[j].key
  }

  /** The position of key `k`, if the table holds it. */
  function IndexOfKey(t: seq<Visit>, k: int): (r: Option<nat>)
    ensures r.Some? ==> r.value < |t| && t[r.value].key == k
    ensures r.None? ==> forall i :: 0 <= i < |t| ==> t[i].key != k
  {
    if t == [] then None
    else if t[|t| - 1].key == k then Some(|t| - 1)
    else IndexOfKey(t[..|t| - 1], k)
  }

  /** `table[v.key] = v`: the entry under that key is replaced where it stands,
      or `v` is appended when the key is new. The order of keys is kept, every
      other entry is kept, and keys stay distinct. */
  function Put(t: seq<Visit>, v: Visit): (r: seq<Visit>)
    ensures Keys(r) == if v.key in Keys(t) then Keys(t) else Keys(t) + [v.key]
    ensures v in r
    ensures forall i :: 0 <= i < |t| && t[i].key != v.key ==> r[i] == t[i]
    ensures forall w :: w in t && w.key != v.key ==> w in r
    ensures forall w :: w in r ==> w == v || w in t
    ensures KeysDistinct(t) ==> KeysDistinct(r)
    ensures KeysDistinct(t) ==> forall i :: 0 <= i < |r| && r[i].key == v.key ==> r[i] == v
  {
    match IndexOfKey(t, v.key)
    case Some(i) =>
      assert v.key in Keys(t) by { assert Keys(t)[i] == v.key; }
      t[i := v]
    case None =>
      assert v.key !in Keys(t);
      t + [v]
  }

  /** Deleting every key of `ks`: the entries whose key is outside `ks` remain,
      in their order. */
  function RemoveKeys(t: seq<Visit>, ks: set<int>): (r: seq<Visit>)
    ensures |r| <= |t|
    ensures forall w :: w in r <==> w in t && w.key !in ks
    ensures KeysDistinct(t) ==> KeysDistinct(r)
  {
    if t == [] then []
    else
      var rest := RemoveKeys(t[1..], ks);
      assert forall w :: w in t <==> w == t[0] || w in t[1..];
      DistinctTail(t);
      if t[0].key in ks then rest else [t[0]] + rest
  }

  /** The tail of a table with distinct keys has distinct keys, none of them
      the head's key. */
  lemma DistinctTail(t: seq<Visit>)
    requires t != []
    ensures KeysDistinct(t) ==> KeysDistinct(t[1..])
    ensures KeysDistinct(t) ==> forall w :: w in t[1..] ==> w.key != t[0].key
  {
    if KeysDistinct(t) {
      forall i, j | 0 <= i < j < |t[1..]| ensures t[1..][i].key != t[1..][j].key {
        assert t[1..][i] == t[i + 1] && t[1..][j] == t[j + 1];
      }
      forall w | w in t[1..] ensures w.key != t[0].key {
        var j :| 0 <= j < |t[1..]| && t[1..][j] == w;
        assert t[j + 1] == w;
      }
    }
  }

  /** Deleting no key changes nothing. */
  lemma {:induction false} RemoveNoKeys(t: seq<Visit>)
    ensures RemoveKeys(t, {}) == t
  {
    if t != [] {
      RemoveNoKeys(t[1..]);
    }
  }

  /** Deleting keys in two rounds is deleting them all at once. */
  lemma {:induction false} RemoveKeysTwice(t: seq<Visit>, a: set<int>, b: set<int>)
    ensures RemoveKeys(RemoveKeys(t, a), b) == RemoveKeys(t, a + b)
  {
    if t != [] {
      RemoveKeysTwice(t[1..], a, b);
      var first := RemoveKeys(t, a);
      if t[0].key !in a {
        assert first == [t[0]] + RemoveKeys(t[1..], a);
        assert first[1..] == RemoveKeys(t[1..], a);
      }
    }
  }

  /** Refreshes the `lastSeen` time of entry `j`; nothing else changes. */
  function Touch(t: seq<Visit>, j: nat, now: int): (r: seq<Visit>)
    requires j < |t|
    ensures |r| == |t| && Keys(r) == Keys(t)
    ensures r[j] == t[j].(lastSeen := now)
    ensures forall i :: 0 <= i < |t| && i != j ==> r[i] == t[i]
    ensures KeysDistinct(t) ==> KeysDistinct(r)
  {
    t[j := t[j].(lastSeen := now)]
  }
}
