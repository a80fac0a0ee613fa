/**
  The insertion-ordered dictionary (`System.Collections.Specialized.OrderedDictionary`)
  the assembly discovery keys by relative path, and the "remove, then add" update it
  performs on it.
 */
module OrderedMap {

  import opened Wrappers

  type Path = string

  /** A dictionary entry: the key and the stored value. */
  type Entry = (Path, Path)

  /** The keys of an entry sequence, in order. */
  function Keys(ps: seq<Entry>): (ks: seq<Path>)
    ensures |ks| == |ps|
    ensures forall i :: 0 <= i < |ps| ==> ks[i] == ps[i].0
  {
    seq(|ps|, i requires 0 <= i < |ps| => ps[i].0)
  }

  /** The values of an entry sequence, in order. */
  function Values(ps: seq<Entry>): (vs: seq<Path>)
    ensures |vs| == |ps|
    ensures forall i :: 0 <= i < |ps| ==> vs[i] == ps[i].1
  {
    seq(|ps|, i requires 0 <= i < |ps| => ps[i].1)
  }

  ghost predicate DistinctKeys(ps: seq<Entry>)
  {
    forall i, j :: 0 <= i < j < |ps| ==> ps[i].0 != ps[j].0
  }

  predicate HasKey(ps: seq<Entry>, k: Path)
  {
    k in Keys(ps)
  }

  /** The entries whose key is not `k`, in their order. */
  function RemoveKey(ps: seq<Entry>, k: Path): (r: seq<Entry>)
    ensures |r| <= |ps|
    ensures forall p :: p in r <==> p in ps && p.0 != k
  {
    if ps == [] then []
    else if ps[0].0 == k then RemoveKey(ps[1..], k)
    else [ps[0]] + RemoveKey(ps[1..], k)
  }

  /** The entries whose key is not in `ks`, in their order. */
  function RemoveKeys(ps: seq<Entry>, ks: set<Path>): (r: seq<Entry>)
    ensures forall p :: p in r <==> p in ps && p.0 !in ks
  {
    if ps == [] then []
    else if ps[0].0 in ks then RemoveKeys(ps[1..], ks)
    else [ps[0]] + RemoveKeys(ps[1..], ks)
  }

  /** `if (map.Contains(key)) map.Remove(key); map.Add(key, value);` */
  function Upsert(ps: seq<Entry>, k: Path, v: Path): seq<Entry>
  {
    RemoveKey(ps, k) + [(k, v)]
  }

  /** The dictionary after upserting every entry of `ps`, first to last. */
  function MergeAll(m: seq<Entry>, ps: seq<Entry>): seq<Entry>
    decreases |ps|
  {
    if ps == [] then m
    else
      var last := ps[|ps| - 1];
      Upsert(MergeAll(m, ps[..|ps| - 1]), last.0, last.1)
  }

  lemma MergeAllSnoc(m: seq<Entry>, ps: seq<Entry>, k: Path, v: Path)
    ensures MergeAll(m, ps + [(k, v)]) == Upsert(MergeAll(m, ps), k, v)
  {
    assert (ps + [(k, v)])[..|ps|] == ps;
  }

  /** The set of keys occurring in `ps`. */
  function KeySet(ps: seq<Entry>): (ks: set<Path>)
    ensures forall k :: k in ks <==> HasKey(ps, k)
  {
    set i | 0 <= i < |ps| :: ps[i].0
  }

  /** The value stored under `k`, if any (the first match; with distinct keys the only one). */
  function Lookup(ps: seq<Entry>, k: Path): (r: Option<Path>)
    ensures r.None? <==> !HasKey(ps, k)
    ensures r.Some? ==> (k, r.value) in ps
  {
    if ps == [] then None
    else if ps[0].0 == k then Some(ps[0].1)
    else
      assert Keys(ps) == [ps[0].0] + Keys(ps[1..]);
      Lookup(ps[1..], k)
  }

  /** The value paired with the last occurrence of `k` in `ps`. */
  function LastValue(ps: seq<Entry>, k: Path): (v: Path)
    requires HasKey(ps, k)
    ensures (k, v) in ps
    decreases |ps|
  {
    var last := ps[|ps| - 1];
    if last.0 == k then last.1
    else
      assert Keys(ps) == Keys(ps[..|ps| - 1]) + [last.0];
      LastValue(ps[..|ps| - 1], k)
  }

  lemma {:induction false} RemoveKeyDistinct(ps: seq<Entry>, k: Path)
    requires DistinctKeys(ps)
    ensures DistinctKeys(RemoveKey(ps, k))
    ensures !HasKey(RemoveKey(ps, k), k)
  {
    var r := RemoveKey(ps, k);
    if ps != [] {
      RemoveKeyDistinct(ps[1..], k);
      if ps[0].0 != k {
        forall j | 0 < j < |r| ensures r[0].0 != r[j].0 {
          assert r[j] in RemoveKey(ps[1..], k);
        }
      }
    }
    forall i | 0 <= i < |r| ensures Keys(r)[i] != k {
      assert r[i] in r;
    }
  }

  /** Upserting keeps keys unique, and the upserted entry becomes the last one. */
  lemma {:induction false} UpsertDistinct(ps: seq<Entry>, k: Path, v: Path)
    requires DistinctKeys(ps)
    ensures DistinctKeys(Upsert(ps, k, v))
    ensures Upsert(ps, k, v)[|Upsert(ps, k, v)| - 1] == (k, v)
  {
    RemoveKeyDistinct(ps, k);
    var r := RemoveKey(ps, k);
    forall i | 0 <= i < |r| ensures r[i].0 != k {
      assert Keys(r)[i] == r[i].0;
    }
  }

  /** Map keys stay unique however many entries are merged in. */
  lemma {:induction false} MergeAllDistinct(m: seq<Entry>, ps: seq<Entry>)
    requires DistinctKeys(m)
    ensures DistinctKeys(MergeAll(m, ps))
    decreases |ps|
  {
    if ps != [] {
      MergeAllDistinct(m, ps[..|ps| - 1]);
      UpsertDistinct(MergeAll(m, ps[..|ps| - 1]), ps[|ps| - 1].0, ps[|ps| - 1].1);
    }
  }

  lemma MergeAllLast(m: seq<Entry>, ps: seq<Entry>)
    requires ps != []
    ensures MergeAll(m, ps) == Upsert(MergeAll(m, ps[..|ps| - 1]), ps[|ps| - 1].0, ps[|ps| - 1].1)
  {
  }

  /** Merging in two batches is merging their concatenation. */
  lemma {:induction false} MergeAllAppend(m: seq<Entry>, ps: seq<Entry>, qs: seq<Entry>)
    ensures MergeAll(MergeAll(m, ps), qs) == MergeAll(m, ps + qs)
    decreases |qs|
  {
    if qs == [] {
      assert ps + qs == ps;
    } else {
      var both := ps + qs;
      var init := qs[..|qs| - 1];
      var last := qs[|qs| - 1];
      var prefix := both[..|both| - 1];
      assert prefix == ps + init;
      assert both[|both| - 1] == last;
      MergeAllLast(m, both);
      MergeAllAppend(m, ps, init);
      assert MergeAll(MergeAll(m, ps), qs) == Upsert(MergeAll(MergeAll(m, ps), init), last.0, last.1);
    }
  }

  lemma {:induction false} LookupRemoveKey(ps: seq<Entry>, k: Path, x: Path)
    requires x != k
    ensures Lookup(RemoveKey(ps, k), x) == Lookup(ps, x)
  {
    if ps != [] {
      LookupRemoveKey(ps[1..], k, x);
    }
  }

  lemma {:induction false} LookupAppend(ps: seq<Entry>, qs: seq<Entry>, x: Path)
    ensures Lookup(ps + qs, x) == if HasKey(ps, x) then Lookup(ps, x) else Lookup(qs, x)
  {
    if ps == [] {
      assert ps + qs == qs;
    } else {
      assert (ps + qs)[0] == ps[0];
      assert (ps + qs)[1..] == ps[1..] + qs;
      assert Keys(ps) == [ps[0].0] + Keys(ps[1..]);
      LookupAppend(ps[1..], qs, x);
    }
  }

  /**
    Last one wins: after the merge a key maps to the value of its last occurrence in the
    merged entries, and keys that were not merged keep what they had.
   */
  lemma {:induction false} MergeAllLookup(m: seq<Entry>, ps: seq<Entry>, x: Path)
    ensures Lookup(MergeAll(m, ps), x) == if HasKey(ps, x) then Some(LastValue(ps, x)) else Lookup(m, x)
    decreases |ps|
  {
    if ps != [] {
      var init := ps[..|ps| - 1];
      var last := ps[|ps| - 1];
      var before := MergeAll(m, init);
      assert Keys(ps) == Keys(init) + [last.0];
      MergeAllLookup(m, init, x);
      LookupAppend(RemoveKey(before, last.0), [(last.0, last.1)], x);
      if last.0 == x {
        RemoveKeyGone(before, x);
      } else {
        LookupRemoveKey(before, last.0, x);
      }
    }
  }

  lemma RemoveKeyGone(ps: seq<Entry>, k: Path)
    ensures !HasKey(RemoveKey(ps, k), k)
  {
    var r := RemoveKey(ps, k);
    forall i | 0 <= i < |r| ensures Keys(r)[i] != k {
      assert r[i] in r;
    }
  }

  lemma {:induction false} RemoveKeyAppend(ps: seq<Entry>, qs: seq<Entry>, k: Path)
    ensures RemoveKey(ps + qs, k) == RemoveKey(ps, k) + RemoveKey(qs, k)
  {
    if ps == [] {
      assert ps + qs == qs;
    } else {
      assert (ps + qs)[0] == ps[0];
      assert (ps + qs)[1..] == ps[1..] + qs;
      RemoveKeyAppend(ps[1..], qs, k);
    }
  }

  lemma {:induction false} RemoveKeyOfRemoveKeys(ps: seq<Entry>, ks: set<Path>, k: Path)
    ensures RemoveKey(RemoveKeys(ps, ks), k) == RemoveKeys(ps, ks + {k})
  {
    if ps != [] {
      RemoveKeyOfRemoveKeys(ps[1..], ks, k);
    }
  }

  lemma {:induction false} RemoveNoKeys(ps: seq<Entry>)
    ensures RemoveKeys(ps, {}) == ps
  {
    if ps != [] {
      RemoveNoKeys(ps[1..]);
    }
  }

  /**
    The order a merge leaves: the old entries whose keys were not merged again, in their old
    order, then the merged keys ordered by their last occurrence; so a key merged again moves
    to the end.
   */
  lemma {:induction false} MergeAllLayout(m: seq<Entry>, ps: seq<Entry>)
    ensures MergeAll(m, ps) == RemoveKeys(m, KeySet(ps)) + MergeAll([], ps)
    decreases |ps|
  {
    if ps == [] {
      assert KeySet(ps) == {};
      RemoveNoKeys(m);
    } else {
      var init := ps[..|ps| - 1];
      var last := ps[|ps| - 1];
      var kept := RemoveKeys(m, KeySet(init));
      var merged := MergeAll([], init);
      assert KeySet(init) + {last.0} == KeySet(ps) by {
        assert Keys(ps) == Keys(init) + [last.0];
      }
      calc {
        MergeAll(m, ps);
        Upsert(MergeAll(m, init), last.0, last.1);
        { MergeAllLayout(m, init); }
        Upsert(kept + merged, last.0, last.1);
        RemoveKey(kept + merged, last.0) + [(last.0, last.1)];
        { RemoveKeyAppend(kept, merged, last.0); }
        RemoveKey(kept, last.0) + RemoveKey(merged, last.0) + [(last.0, last.1)];
        { RemoveKeyOfRemoveKeys(m, KeySet(init), last.0); }
        RemoveKeys(m, KeySet(ps)) + RemoveKey(merged, last.0) + [(last.0, last.1)];
        RemoveKeys(m, KeySet(ps)) + Upsert(merged, last.0, last.1);
        RemoveKeys(m, KeySet(ps)) + MergeAll([], ps);
      }
    }
  }

  lemma {:induction false} RemoveKeyAbsent(ps: seq<Entry>, k: Path)
    requires !HasKey(ps, k)
    ensures RemoveKey(ps, k) == ps
  {
    if ps != [] {
      assert Keys(ps) == [ps[0].0] + Keys(ps[1..]);
      RemoveKeyAbsent(ps[1..], k);
    }
  }

  /**
    The mutable dictionary. Its entries are kept in insertion order; `Add` appends and
    `Remove` drops one key, so keys stay unique.
   */
  class OrderedDictionary {
    var entries: seq<Entry>

    ghost predicate Valid()
      reads this
    {
      DistinctKeys(entries)
    }

    constructor ()
      ensures Valid() && entries == []
    {
      entries := [];
    }

    function Contains(k: Path): (r: bool)
      reads this
      ensures r <==> exists i :: 0 <= i < |entries| && entries[i].0 == k
    {
      k in Keys(entries)
    }

    /** Removing an absent key does nothing. */
    method Remove(k: Path)
      requires Valid()
      modifies this
      ensures Valid()
      ensures entries == RemoveKey(old(entries), k)
      ensures !Contains(k)
    {
      RemoveKeyDistinct(entries, k);
      entries := RemoveKey(entries, k);
    }

    /** `OrderedDictionary.Add` throws on a key already present; callers remove it first. */
    method Add(k: Path, v: Path)
      requires Valid() && !Contains(k)
      modifies this
      ensures Valid()
      ensures entries == old(entries) + [(k, v)]
    {
      RemoveKeyAbsent(entries, k);
      UpsertDistinct(entries, k, v);
      entries := entries + [(k, v)];
    }
  }
}
