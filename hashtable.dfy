/** The open-addressing hash table `HashTable`: a vector of optional
    (key, value) slots probed linearly from `hash(key) % capacity`. The
    table doubles before an insert once the load reaches 3/4, and after a
    removal it resets to 8 slots when empty or halves when the load is at
    most 1/4 and it has more than 8 slots. The hash function is a
    parameter. */
module OpenAddressing {
  import opened Wrappers

  type Slots<K, V> = seq<Option<(K, V)>>

  /** The slot where probing for `k` starts. */
  function Home<K(!new)>(hash: K -> nat, k: K, n: nat): nat
    requires n > 0
  {
    hash(k) % n
  }

  /** The slot `d` steps after `h`, wrapping around once. */
  function Slot(h: nat, d: nat, n: nat): (i: nat)
    requires h < n && d < n
    ensures i < n
  {
    if h + d < n then h + d else h + d - n
  }

  /** One more step of the probe moves to the next slot. */
  lemma NextSlot(h: nat, d: nat, n: nat)
    requires h < n && d + 1 < n
    ensures (Slot(h, d, n) + 1) % n == Slot(h, d + 1, n)
  {
    var i := Slot(h, d, n);
    if i + 1 == n {
      assert (i + 1) % n == 0;
    } else {
      assert (i + 1) % n == i + 1;
    }
  }

  /** How many steps the probe from `h` takes to reach slot `p`. */
  function Dist(h: nat, p: nat, n: nat): (d: nat)
    requires n > 0 && h < n && p < n
    ensures d < n && Slot(h, d, n) == p
  {
    if h <= p then p - h else p + n - h
  }

  predicate HasFree<K(!new), V(!new)>(t: Slots<K, V>)
  {
    exists p :: 0 <= p < |t| && t[p].None?
  }

  /** Number of occupied slots. */
  function Occupied<K(!new), V(!new)>(t: Slots<K, V>): (c: nat)
    ensures c <= |t|
    ensures c < |t| ==> HasFree(t)
    ensures c == 0 ==> forall p :: 0 <= p < |t| ==> t[p].None?
  {
    if t == [] then 0
    else
      var c := Occupied(t[..|t| - 1]);
      assert c < |t| - 1 ==> HasFree(t[..|t| - 1]);
      c + (if t[|t| - 1].Some? then 1 else 0)
  }

  /** The stored (key, value) pairs. */
  ghost function Entries<K(!new), V(!new)>(t: Slots<K, V>): set<(K, V)>
  {
    if t == [] then {}
    else Entries(t[..|t| - 1]) + (if t[|t| - 1].Some? then {t[|t| - 1].value} else {})
  }

  lemma {:induction false} EntriesIn<K(!new), V(!new)>(t: Slots<K, V>)
    ensures forall e :: e in Entries(t) <==> exists p :: 0 <= p < |t| && t[p] == Some(e)
    decreases |t|
  {
    if t != [] {
      EntriesIn(t[..|t| - 1]);
      assert forall p :: 0 <= p < |t| - 1 ==> t[..|t| - 1][p] == t[p];
    }
  }

  lemma InEntries<K(!new), V(!new)>(t: Slots<K, V>, p: nat)
    requires p < |t| && t[p].Some?
    ensures t[p].value in Entries(t)
  {
    EntriesIn(t);
  }

  /** An entry of a prefix comes from one of its slots. */
  lemma FromPrefix<K(!new), V(!new)>(t: Slots<K, V>, j: nat, x: (K, V)) returns (p: nat)
    requires j <= |t| && x in Entries(t[..j])
    ensures p < j && t[p] == Some(x)
  {
    EntriesIn(t[..j]);
    p :| 0 <= p < j && t[..j][p] == Some(x);
  }

  predicate KeyIn<K(==,!new), V(!new)>(t: Slots<K, V>, k: K)
  {
    exists p :: 0 <= p < |t| && t[p].Some? && t[p].value.0 == k
  }

  ghost predicate DistinctKeys<K(!new), V(!new)>(t: Slots<K, V>)
  {
    forall p, q :: 0 <= p < |t| && 0 <= q < |t| && t[p].Some? && t[q].Some? && t[p].value.0 == t[q].value.0 ==> p == q
  }

  /** Every stored key sits at the end of an unbroken run of occupied
      slots starting at its home slot, so probing reaches it. */
  ghost predicate Chained<K(!new), V(!new)>(t: Slots<K, V>, hash: K -> nat)
  {
    |t| > 0 &&
    forall p, d :: 0 <= p < |t| && t[p].Some? && 0 <= d < Dist(Home(hash, t[p].value.0, |t|), p, |t|) ==>
      t[Slot(Home(hash, t[p].value.0, |t|), d, |t|)].Some?
  }

  /** The number of steps the lookup loop of `insert`, `find` and `remove`
      takes from distance `d` on: it stops at an empty slot or at `k`. It
      returns |t| only when every slot it passed was taken. */
  function ProbeFrom<K(==,!new), V(!new)>(t: Slots<K, V>, k: K, h: nat, d: nat): (r: nat)
    requires 0 < |t| && h < |t| && d <= |t|
    ensures d <= r <= |t|
    ensures forall e :: d <= e < r ==> t[Slot(h, e, |t|)].Some? && t[Slot(h, e, |t|)].value.0 != k
    ensures r < |t| ==> t[Slot(h, r, |t|)].None? || t[Slot(h, r, |t|)].value.0 == k
    decreases |t| - d
  {
    if d == |t| then d
    else
      var i := Slot(h, d, |t|);
      if t[i].None? || t[i].value.0 == k then d else ProbeFrom(t, k, h, d + 1)
  }

  /** The number of steps the re-insertion loop of the rehash takes: it
      stops at the first empty slot. */
  function VacancyFrom<K(!new), V(!new)>(t: Slots<K, V>, h: nat, d: nat): (r: nat)
    requires 0 < |t| && h < |t| && d <= |t|
    ensures d <= r <= |t|
    ensures forall e :: d <= e < r ==> t[Slot(h, e, |t|)].Some?
    ensures r < |t| ==> t[Slot(h, r, |t|)].None?
    decreases |t| - d
  {
    if d == |t| then d
    else if t[Slot(h, d, |t|)].None? then d else VacancyFrom(t, h, d + 1)
  }

  /** With a free slot somewhere, probing stops before going round. */
  lemma ProbeStops<K(!new), V(!new)>(t: Slots<K, V>, k: K, h: nat)
    requires 0 < |t| && h < |t| && HasFree(t)
    ensures ProbeFrom(t, k, h, 0) < |t|
  {
    var p :| 0 <= p < |t| && t[p].None?;
    var d := Dist(h, p, |t|);
    assert t[Slot(h, d, |t|)].None?;
  }

  lemma VacancyStops<K(!new), V(!new)>(t: Slots<K, V>, h: nat)
    requires 0 < |t| && h < |t| && HasFree(t)
    ensures VacancyFrom(t, h, 0) < |t|
  {
    var p :| 0 <= p < |t| && t[p].None?;
    var d := Dist(h, p, |t|);
    assert t[Slot(h, d, |t|)].None?;
  }

  /** In a chained table with distinct keys the probe for `k` ends on `k`
      exactly when `k` is stored. */
  lemma ProbeFinds<K(!new), V(!new)>(t: Slots<K, V>, hash: K -> nat, k: K)
    requires Chained(t, hash) && HasFree(t)
    ensures var h := Home(hash, k, |t|);
            var r := ProbeFrom(t, k, h, 0);
            r < |t| && (KeyIn(t, k) <==> t[Slot(h, r, |t|)].Some?)
  {
    var h := Home(hash, k, |t|);
    ProbeStops(t, k, h);
    var r := ProbeFrom(t, k, h, 0);
    if KeyIn(t, k) {
      var p :| 0 <= p < |t| && t[p].Some? && t[p].value.0 == k;
      var dp := Dist(h, p, |t|);
      assert t[Slot(h, dp, |t|)].value.0 == k;
      assert r < dp ==> t[Slot(h, r, |t|)].Some?;
    }
  }

  /** Filling the slot a probe stopped at keeps every key reachable. */
  lemma PlaceKeepsChain<K(!new), V(!new)>(t: Slots<K, V>, hash: K -> nat, e: (K, V), r: nat)
    requires Chained(t, hash)
    requires var h := Home(hash, e.0, |t|);
             r < |t| && (forall d :: 0 <= d < r ==> t[Slot(h, d, |t|)].Some?) && t[Slot(h, r, |t|)].None?
    ensures Chained(t[Slot(Home(hash, e.0, |t|), r, |t|) := Some(e)], hash)
  {
    var n := |t|;
    var i := Slot(Home(hash, e.0, n), r, n);
    var u := t[i := Some(e)];
    forall p, d | 0 <= p < n && u[p].Some? && 0 <= d < Dist(Home(hash, u[p].value.0, n), p, n)
      ensures u[Slot(Home(hash, u[p].value.0, n), d, n)].Some?
    {
      if p != i {
        ChainStep(t, hash, p, d);
      } else {
        assert Dist(Home(hash, e.0, n), i, n) == r;
      }
    }
  }

  lemma ChainStep<K(!new), V(!new)>(t: Slots<K, V>, hash: K -> nat, p: nat, d: nat)
    requires Chained(t, hash) && p < |t| && t[p].Some?
    requires d < Dist(Home(hash, t[p].value.0, |t|), p, |t|)
    ensures t[Slot(Home(hash, t[p].value.0, |t|), d, |t|)].Some?
  {
  }

  /** Overwriting the value of a stored key changes no key's position. */
  lemma OverwriteKeepsChain<K(!new), V(!new)>(t: Slots<K, V>, hash: K -> nat, i: nat, e: (K, V))
    requires Chained(t, hash) && i < |t| && t[i].Some? && t[i].value.0 == e.0
    ensures Chained(t[i := Some(e)], hash)
  {
    var u := t[i := Some(e)];
    forall p, d | 0 <= p < |t| && u[p].Some? && 0 <= d < Dist(Home(hash, u[p].value.0, |t|), p, |t|)
      ensures u[Slot(Home(hash, u[p].value.0, |t|), d, |t|)].Some?
    {
      assert t[p].Some? && t[p].value.0 == u[p].value.0;
    }
  }

  lemma {:induction false} OccupiedUpdate<K(!new), V(!new)>(t: Slots<K, V>, i: nat, x: Option<(K, V)>)
    requires i < |t|
    ensures Occupied(t[i := x]) ==
            Occupied(t) - (if t[i].Some? then 1 else 0) + (if x.Some? then 1 else 0)
    decreases |t|
  {
    var n := |t| - 1;
    var u := t[i := x];
    if i < n {
      assert u[..n] == t[..n][i := x];
      OccupiedUpdate(t[..n], i, x);
    } else {
      assert u[..n] == t[..n];
    }
  }

  lemma {:induction false} OccupiedPrefix<K(!new), V(!new)>(t: Slots<K, V>, j: nat)
    requires j < |t|
    ensures Occupied(t[..j + 1]) == Occupied(t[..j]) + (if t[j].Some? then 1 else 0)
    ensures Occupied(t[..j + 1]) <= Occupied(t)
    decreases |t| - j
  {
    assert t[..j + 1][..j] == t[..j];
    if j + 1 < |t| {
      OccupiedPrefix(t, j + 1);
    } else {
      assert t[..j + 1] == t;
    }
  }

  /** A table of `n` empty slots. */
  function EmptySlots<K(!new), V(!new)>(n: nat): (t: Slots<K, V>)
    ensures |t| == n && Occupied(t) == 0 && Entries(t) == {}
    ensures forall p :: 0 <= p < n ==> t[p].None?
  {
    if n == 0 then [] else
      var t: Slots<K, V> := EmptySlots(n - 1) + [None];
      assert t[..n - 1] == EmptySlots(n - 1);
      t
  }

  /** Resizing a table of empty slots, by truncating it or padding it
      with empty slots, gives `n` empty slots. */
  lemma ResizeEmpty<K(!new), V(!new)>(t: Slots<K, V>, n: nat)
    requires forall p :: 0 <= p < |t| ==> t[p].None?
    ensures (if |t| >= n then t[..n] else t + EmptySlots(n - |t|)) == EmptySlots(n)
  {
    var r := if |t| >= n then t[..n] else t + EmptySlots(n - |t|);
    assert forall p :: 0 <= p < n ==> r[p] == EmptySlots(n)[p];
  }

  lemma NoEntries<K(!new), V(!new)>(t: Slots<K, V>)
    requires Occupied(t) == 0
    ensures Entries(t) == {}
  {
    EntriesIn(t);
  }

  /** A table of empty slots keeps every invariant. */
  lemma EmptyTable<K(!new), V(!new)>(n: nat, hash: K -> nat)
    requires n > 0
    ensures var t: Slots<K, V> := EmptySlots(n);
            Occupied(t) == 0 && DistinctKeys(t) && Chained(t, hash) && AtHome(t, hash) && Entries(t) == {}
  {
  }

  /** The entries with a key other than `k`. */
  ghost function Without<K(!new), V(!new)>(s: set<(K, V)>, k: K): set<(K, V)>
  {
    set e | e in s && e.0 != k
  }

  lemma EntriesPrefix<K(!new), V(!new)>(t: Slots<K, V>, j: nat)
    requires j < |t|
    ensures Entries(t[..j + 1]) == Entries(t[..j]) + (if t[j].Some? then {t[j].value} else {})
  {
    assert t[..j + 1][..j] == t[..j];
  }

  /** A key is stored exactly when some entry carries it. */
  lemma KeyInEntries<K(!new), V(!new)>(t: Slots<K, V>, k: K)
    ensures KeyIn(t, k) <==> exists e :: e in Entries(t) && e.0 == k
  {
    if KeyIn(t, k) {
      var p :| 0 <= p < |t| && t[p].Some? && t[p].value.0 == k;
      EntriesIn(t);
      assert t[p].value in Entries(t);
    }
  }

  /** Storing `e` in slot `i`, which is empty while `e`'s key is absent
      or already holds that key, replaces the entry for that key. */
  lemma StoreEntry<K(!new), V(!new)>(t: Slots<K, V>, i: nat, e: (K, V))
    requires DistinctKeys(t) && i < |t|
    requires if t[i].Some? then t[i].value.0 == e.0 else !KeyIn(t, e.0)
    ensures DistinctKeys(t[i := Some(e)])
    ensures Entries(t[i := Some(e)]) == Without(Entries(t), e.0) + {e}
    ensures Occupied(t[i := Some(e)]) == Occupied(t) + (if t[i].Some? then 0 else 1)
  {
    var u := t[i := Some(e)];
    OccupiedUpdate(t, i, Some(e));
    EntriesIn(t);
    EntriesIn(u);
    forall x | x in Entries(u)
      ensures x in Without(Entries(t), e.0) + {e}
    {
      var p :| 0 <= p < |u| && u[p] == Some(x);
      if p != i {
        assert t[p] == Some(x);
      }
    }
    forall x | x in Without(Entries(t), e.0)
      ensures x in Entries(u)
    {
      var p :| 0 <= p < |t| && t[p] == Some(x);
      assert u[p] == Some(x);
    }
    assert u[i] == Some(e);
  }

  /** Emptying an occupied slot drops the entry for its key. */
  lemma ClearEntry<K(!new), V(!new)>(t: Slots<K, V>, i: nat)
    requires DistinctKeys(t) && i < |t| && t[i].Some?
    ensures DistinctKeys(t[i := None])
    ensures Entries(t[i := None]) == Without(Entries(t), t[i].value.0)
    ensures Occupied(t[i := None]) == Occupied(t) - 1
  {
    var u := t[i := None];
    OccupiedUpdate(t, i, None);
    EntriesIn(t);
    EntriesIn(u);
    forall x | x in Entries(u)
      ensures x in Without(Entries(t), t[i].value.0)
    {
      var p :| 0 <= p < |u| && u[p] == Some(x);
      assert t[p] == Some(x);
    }
    forall x | x in Without(Entries(t), t[i].value.0)
      ensures x in Entries(u)
    {
      var p :| 0 <= p < |t| && t[p] == Some(x);
      assert u[p] == Some(x);
    }
  }

  /** `u` holds exactly the entries of the first `j` slots of `t`, each
      reachable by probing. */
  ghost predicate RebuiltPrefix<K(!new), V(!new)>(t: Slots<K, V>, u: Slots<K, V>, hash: K -> nat, j: nat)
  {
    j <= |t| && Chained(u, hash) && DistinctKeys(u) &&
    Entries(u) == Entries(t[..j]) && Occupied(u) == Occupied(t[..j])
  }

  lemma RebuildStart<K(!new), V(!new)>(t: Slots<K, V>, hash: K -> nat, n: nat)
    requires n > 0
    ensures RebuiltPrefix(t, EmptySlots(n), hash, 0)
  {
    assert t[..0] == [];
  }

  /** While a prefix of `t` is re-inserted, a vacancy remains. */
  lemma RebuildRoom<K(!new), V(!new)>(t: Slots<K, V>, u: Slots<K, V>, hash: K -> nat, j: nat)
    requires RebuiltPrefix(t, u, hash, j) && j < |t| && Occupied(t) < |u|
    ensures Occupied(u) < |u|
  {
    OccupiedPrefix(t, j);
  }

  lemma RebuildDone<K(!new), V(!new)>(t: Slots<K, V>, u: Slots<K, V>, hash: K -> nat)
    requires RebuiltPrefix(t, u, hash, |t|)
    ensures Chained(u, hash) && DistinctKeys(u) && Entries(u) == Entries(t) && Occupied(u) == Occupied(t)
  {
    assert t[..|t|] == t;
  }

  /** An empty slot of `t` adds nothing. */
  lemma RebuildSkip<K(!new), V(!new)>(t: Slots<K, V>, u: Slots<K, V>, hash: K -> nat, j: nat)
    requires RebuiltPrefix(t, u, hash, j) && j < |t| && t[j].None?
    ensures RebuiltPrefix(t, u, hash, j + 1)
  {
    OccupiedPrefix(t, j);
    EntriesPrefix(t, j);
  }

  /** Re-inserting slot `j` of `t` at the first vacancy of its probe. */
  lemma RebuildStep<K(!new), V(!new)>(t: Slots<K, V>, u: Slots<K, V>, hash: K -> nat, j: nat, r: nat)
    requires DistinctKeys(t) && RebuiltPrefix(t, u, hash, j) && j < |t| && t[j].Some?
    requires var h := Home(hash, t[j].value.0, |u|);
             r < |u| && (forall d :: 0 <= d < r ==> u[Slot(h, d, |u|)].Some?) && u[Slot(h, r, |u|)].None?
    ensures RebuiltPrefix(t, u[Slot(Home(hash, t[j].value.0, |u|), r, |u|) := t[j]], hash, j + 1)
  {
    var e := t[j].value;
    forall x | x in Entries(u)
      ensures x.0 != e.0
    {
      var p := FromPrefix(t, j, x);
    }
    KeyInEntries(u, e.0);
    var i := Slot(Home(hash, e.0, |u|), r, |u|);
    StoreEntry(u, i, e);
    PlaceKeepsChain(u, hash, e, r);
    EntriesPrefix(t, j);
    OccupiedPrefix(t, j);
    assert Without(Entries(u), e.0) == Entries(u);
  }

  /** Every entry sits in its home slot: no two keys collided. */
  ghost predicate AtHome<K(!new), V(!new)>(t: Slots<K, V>, hash: K -> nat)
  {
    |t| > 0 && forall p :: 0 <= p < |t| && t[p].Some? ==> Home(hash, t[p].value.0, |t|) == p
  }

  /** No two keys of `s` share a home slot among `n` slots. */
  ghost predicate DistinctHomes<K(!new), V(!new)>(s: set<(K, V)>, hash: K -> nat, n: nat)
  {
    n > 0 && forall x, y :: x in s && y in s && Home(hash, x.0, n) == Home(hash, y.0, n) ==> x.0 == y.0
  }

  /** No key of `s` other than `k` has the home slot of `k` among `n` slots. */
  ghost predicate HomeFree<K(!new), V(!new)>(s: set<(K, V)>, hash: K -> nat, k: K, n: nat)
  {
    n > 0 && forall x :: x in s && x.0 != k ==> Home(hash, x.0, n) != Home(hash, k, n)
  }

  lemma AtHomeChained<K(!new), V(!new)>(t: Slots<K, V>, hash: K -> nat)
    requires AtHome(t, hash)
    ensures Chained(t, hash)
  {
  }

  /** When `k`'s home slot holds no other key, probing for `k` stops
      there and storing `k` there keeps every entry at home. */
  lemma HomeStore<K(!new), V(!new)>(t: Slots<K, V>, hash: K -> nat, e: (K, V))
    requires AtHome(t, hash) && HomeFree(Entries(t), hash, e.0, |t|)
    ensures var h := Home(hash, e.0, |t|);
            ProbeFrom(t, e.0, h, 0) == 0 && AtHome(t[h := Some(e)], hash)
  {
    var h := Home(hash, e.0, |t|);
    if t[h].Some? {
      InEntries(t, h);
    }
  }

  lemma ClearKeepsHome<K(!new), V(!new)>(t: Slots<K, V>, hash: K -> nat, i: nat)
    requires AtHome(t, hash) && i < |t|
    ensures AtHome(t[i := None], hash)
  {
    var u := t[i := None];
    assert forall p :: 0 <= p < |t| && u[p].Some? ==> u[p] == t[p];
  }

  /** With distinct homes, re-inserting slot `j` finds its home slot
      empty. */
  lemma RebuildAtHome<K(!new), V(!new)>(t: Slots<K, V>, u: Slots<K, V>, hash: K -> nat, j: nat)
    requires DistinctKeys(t) && RebuiltPrefix(t, u, hash, j) && j < |t| && t[j].Some?
    requires AtHome(u, hash) && DistinctHomes(Entries(t), hash, |u|)
    ensures var h := Home(hash, t[j].value.0, |u|);
            VacancyFrom(u, h, 0) == 0 && AtHome(u[h := t[j]], hash)
  {
    var e := t[j].value;
    InEntries(t, j);
    forall q | 0 <= q < |u| && u[q].Some?
      ensures Home(hash, u[q].value.0, |u|) != Home(hash, e.0, |u|)
    {
      var x := u[q].value;
      InEntries(u, q);
      var p := FromPrefix(t, j, x);
      InEntries(t, p);
    }
  }

  /** The probe of the rehash loop: the first empty slot from `h` on. */
  method Vacancy<K(!new), V(!new)>(t: Slots<K, V>, h: nat) returns (i: nat)
    requires 0 < |t| && h < |t| && Occupied(t) < |t|
    ensures VacancyFrom(t, h, 0) < |t| && i == Slot(h, VacancyFrom(t, h, 0), |t|)
    ensures t[i].None?
  {
    var n := |t|;
    VacancyStops(t, h);
    ghost var stop := VacancyFrom(t, h, 0);
    i := h;
    ghost var d := 0;
    while t[i].Some?
      invariant d <= stop && VacancyFrom(t, h, d) == stop
      invariant i == Slot(h, d, n)
      decreases n - d
    {
      NextSlot(h, d, n);
      i := (i + 1) % n;
      d := d + 1;
    }
  }

  /** The rehash loop: every entry of `t`, in slot order, is put at the
      first vacancy of its probe in `newSize` empty slots. */
  method Rehashed<K(!new), V(!new)>(t: Slots<K, V>, hash: K -> nat, newSize: nat) returns (u: Slots<K, V>)
    requires DistinctKeys(t) && Occupied(t) < newSize
    ensures |u| == newSize && Chained(u, hash) && DistinctKeys(u)
    ensures Entries(u) == Entries(t) && Occupied(u) == Occupied(t)
    ensures DistinctHomes(Entries(t), hash, newSize) ==> AtHome(u, hash)
  {
    u := EmptySlots(newSize);
    RebuildStart(t, hash, newSize);
    var j := 0;
    while j < |t|
      invariant |u| == newSize && RebuiltPrefix(t, u, hash, j)
      invariant DistinctHomes(Entries(t), hash, newSize) ==> AtHome(u, hash)
    {
      if t[j].Some? {
        var h := hash(t[j].value.0) % newSize;
        if DistinctHomes(Entries(t), hash, newSize) {
          RebuildAtHome(t, u, hash, j);
        }
        RebuildRoom(t, u, hash, j);
        var i := Vacancy(u, h);
        RebuildStep(t, u, hash, j, VacancyFrom(u, h, 0));
        u := u[i := t[j]];
      } else {
        RebuildSkip(t, u, hash, j);
      }
      j := j + 1;
    }
    RebuildDone(t, u, hash);
  }

  /** Whether `rehashIfNeeded` rebuilds after a removal left `size`
      entries in `cap` slots: it resets an empty table and halves one at
      load at most 1/4 with more than 8 slots. */
  predicate Resizes(size: nat, cap: nat)
  {
    size == 0 || (4 * size <= cap && cap > 8)
  }

  function CapacityAfterRemoval(size: nat, cap: nat): nat
  {
    if size == 0 then 8 else if Resizes(size, cap) then cap / 2 else cap
  }

  class HashTable<K(==,!new), V(!new)> {
    var table: Slots<K, V>
    var size: nat
    const hashFunction: K -> nat

    /** The bookkeeping every operation keeps: at least four slots, `size`
        counts the occupied slots and leaves one free, and no key is
        stored twice. */
    ghost predicate Basic()
      reads this
    {
      |table| >= 4 && size == Occupied(table) && size < |table| && DistinctKeys(table)
    }

    /** In addition, every stored key is reachable by probing. */
    ghost predicate Valid()
      reads this
    {
      Basic() && Chained(table, hashFunction)
    }

    /** The slot where the lookup loop for `k` stops. */
    ghost function StopSlot(k: K): (i: nat)
      reads this
      requires Basic()
      ensures i < |table|
    {
      var h := Home(hashFunction, k, |table|);
      ProbeStops(table, k, h);
      Slot(h, ProbeFrom(table, k, h, 0), |table|)
    }

    /** `HashTable(initialSize)`, with the hash function as a parameter.
        Fewer than four slots let the table fill up before it grows, after
        which a lookup of an absent key never ends. */
    constructor(initialSize: nat, hash: K -> nat)
      requires initialSize >= 4
      ensures Valid() && size == 0 && hashFunction == hash
      ensures |table| == initialSize && Entries(table) == {}
      ensures forall p :: 0 <= p < |table| ==> table[p].None?
    {
      table := EmptySlots(initialSize);
      size := 0;
      hashFunction := hash;
    }

    /** The lookup loop shared by `insert`, `find` and `remove`. */
    method Probe(k: K) returns (i: nat)
      requires Basic()
      ensures i == StopSlot(k)
      ensures table[i].Some? ==> table[i].value.0 == k
      ensures Valid() ==> (table[i].Some? <==> KeyIn(table, k))
    {
      var n := |table|;
      var h := hashFunction(k) % n;
      ProbeStops(table, k, h);
      ghost var stop := ProbeFrom(table, k, h, 0);
      i := h;
      ghost var d := 0;
      while table[i].Some? && table[i].value.0 != k
        invariant d <= stop && ProbeFrom(table, k, h, d) == stop
        invariant i == Slot(h, d, n)
        decreases n - d
      {
        NextSlot(h, d, n);
        i := (i + 1) % n;
        d := d + 1;
      }
      if Valid() {
        ProbeFinds(table, hashFunction, k);
      }
    }

    /** `find`: the value stored under `k`, if any. */
    method Find(k: K) returns (r: Option<V>)
      requires Basic()
      ensures var i := StopSlot(k); r == if table[i].Some? then Some(table[i].value.1) else None
      ensures r.Some? ==> (k, r.value) in Entries(table)
      ensures Valid() ==> forall v :: r == Some(v) <==> (k, v) in Entries(table)
    {
      var i := Probe(k);
      EntriesIn(table);
      if table[i].Some? {
        r := Some(table[i].value.1);
        assert table[i] == Some((k, r.value));
      } else {
        r := None;
      }
      if Valid() {
        forall v | (k, v) in Entries(table)
          ensures r == Some(v)
        {
          var p :| 0 <= p < |table| && table[p] == Some((k, v));
          assert KeyIn(table, k);
        }
      }
    }

    /** The rehash step of `rehash` and `rehashIfNeeded`. */
    method Rebuild(newSize: nat)
      requires Basic() && size < newSize && newSize >= 4
      modifies this
      ensures Valid() && |table| == newSize && size == old(size)
      ensures Entries(table) == old(Entries(table))
      ensures DistinctHomes(Entries(table), hashFunction, newSize) ==> AtHome(table, hashFunction)
    {
      table := Rehashed(table, hashFunction, newSize);
    }

    /** `rehash`: doubles the number of slots. */
    method Rehash()
      requires Basic()
      modifies this
      ensures Valid() && |table| == 2 * old(|table|) && size == old(size)
      ensures Entries(table) == old(Entries(table))
      ensures DistinctHomes(Entries(table), hashFunction, |table|) ==> AtHome(table, hashFunction)
    {
      Rebuild(2 * |table|);
    }

    /** The first branch of `rehashIfNeeded`: an empty table goes back to
        eight slots by `table.resize(8)`. */
    method Reset()
      requires Basic() && size == 0
      modifies this
      ensures Valid() && AtHome(table, hashFunction) && size == 0 && Entries(table) == old(Entries(table))
      ensures table == EmptySlots(8)
    {
      var n := 8;
      ResizeEmpty(table, n);
      NoEntries(table);
      EmptyTable<K, V>(n, hashFunction);
      table := if |table| >= n then table[..n] else table + EmptySlots(n - |table|);
    }

    /** `rehashIfNeeded`, run after a removal. */
    method RehashIfNeeded()
      requires Basic()
      modifies this
      ensures Basic() && size == old(size) && Entries(table) == old(Entries(table))
      ensures |table| == CapacityAfterRemoval(old(size), old(|table|))
      ensures Resizes(old(size), old(|table|)) ==> Valid()
      ensures !Resizes(old(size), old(|table|)) ==> table == old(table)
      ensures Resizes(old(size), old(|table|)) && (size == 0 || DistinctHomes(Entries(table), hashFunction, |table|)) ==>
                AtHome(table, hashFunction)
    {
      if size == 0 {
        Reset();
      } else if 4 * size <= |table| && |table| > 8 {
        assert size < |table| / 2;
        Rebuild(|table| / 2);
      }
    }

    /** The first step of `insert`: rehash at load 3/4 or more. */
    method GrowIfLoaded()
      requires Valid()
      modifies this
      ensures Valid() && size == old(size) && Entries(table) == old(Entries(table))
      ensures |table| == if 4 * old(size) >= 3 * old(|table|) then 2 * old(|table|) else old(|table|)
      ensures 4 * size < 3 * |table|
      ensures 4 * old(size) < 3 * old(|table|) ==> table == old(table)
      ensures 4 * old(size) >= 3 * old(|table|) && DistinctHomes(Entries(table), hashFunction, |table|) ==>
                AtHome(table, hashFunction)
    {
      if 4 * size >= 3 * |table| {
        Rehash();
      }
    }

    /** The rest of `insert` on a table below load 3/4: overwrite the
        value of `k` where the probe finds it, or store `k` in the empty
        slot the probe stops at. */
    method Store(k: K, v: V)
      requires Valid() && 4 * size < 3 * |table|
      modifies this
      ensures Valid()
      ensures Entries(table) == Without(old(Entries(table)), k) + {(k, v)}
      ensures size == old(size) + (if old(KeyIn(table, k)) then 0 else 1)
      ensures table == old(table)[old(StopSlot(k)) := Some((k, v))]
      ensures old(AtHome(table, hashFunction)) && HomeFree(old(Entries(table)), hashFunction, k, |table|) ==>
                AtHome(table, hashFunction)
    {
      var i := Probe(k);
      StoreEntry(table, i, (k, v));
      if AtHome(table, hashFunction) && HomeFree(Entries(table), hashFunction, k, |table|) {
        HomeStore(table, hashFunction, (k, v));
      }
      if table[i].Some? {
        OverwriteKeepsChain(table, hashFunction, i, (k, v));
        table := table[i := Some((k, v))];
      } else {
        PlaceKeepsChain(table, hashFunction, (k, v), ProbeFrom(table, k, Home(hashFunction, k, |table|), 0));
        table := table[i := Some((k, v))];
        size := size + 1;
      }
    }

    /** `insert`: grows the table first at load 3/4 or more, then
        overwrites the value of `k` or stores it at the first free slot. */
    method Insert(k: K, v: V)
      requires Valid()
      modifies this
      ensures Valid()
      ensures Entries(table) == Without(old(Entries(table)), k) + {(k, v)}
      ensures size == old(size) + (if old(KeyIn(table, k)) then 0 else 1)
      ensures |table| == if 4 * old(size) >= 3 * old(|table|) then 2 * old(|table|) else old(|table|)
      ensures 4 * old(size) < 3 * old(|table|) ==> table == old(table)[old(StopSlot(k)) := Some((k, v))]
      ensures (if 4 * old(size) >= 3 * old(|table|) then DistinctHomes(old(Entries(table)), hashFunction, |table|)
               else old(AtHome(table, hashFunction))) &&
              HomeFree(old(Entries(table)), hashFunction, k, |table|) ==>
                AtHome(table, hashFunction)
    {
      ghost var before := table;
      GrowIfLoaded();
      KeyInEntries(before, k);
      KeyInEntries(table, k);
      Store(k, v);
    }

    /** `remove` with the repair it needs: emptying a slot can cut the
        probe path of a key stored further on, so every entry is put back
        before `rehashIfNeeded`. */
    method Remove(k: K)
      requires Valid()
      modifies this
      ensures Valid()
      ensures Entries(table) == Without(old(Entries(table)), k)
      ensures size == old(size) - (if old(KeyIn(table, k)) then 1 else 0)
      ensures old(KeyIn(table, k)) ==> |table| == CapacityAfterRemoval(size, old(|table|))
      ensures !old(KeyIn(table, k)) ==> table == old(table)
    {
      var i := Probe(k);
      if table[i].Some? {
        ClearEntry(table, i);
        table := table[i := None];
        size := size - 1;
        Rebuild(|table|);
        RehashIfNeeded();
      } else {
        KeyInEntries(table, k);
        assert Without(Entries(table), k) == Entries(table);
      }
    }

    /** `remove` as written: the slot is emptied and nothing else is
        repaired, so only the bookkeeping survives. */
    method RemoveAsWritten(k: K)
      requires Basic()
      modifies this
      ensures Basic()
      ensures old(table)[old(StopSlot(k))].None? ==> table == old(table) && size == old(size)
      ensures old(table)[old(StopSlot(k))].Some? ==>
                size == old(size) - 1 && Entries(table) == Without(old(Entries(table)), k) &&
                |table| == CapacityAfterRemoval(size, old(|table|)) &&
                (!Resizes(size, old(|table|)) ==> table == old(table)[old(StopSlot(k)) := None])
      ensures old(Valid()) ==> (old(KeyIn(table, k)) <==> size == old(size) - 1)
      ensures old(AtHome(table, hashFunction)) &&
              (Resizes(size, old(|table|)) && size != 0 ==> DistinctHomes(Entries(table), hashFunction, |table|)) ==>
                AtHome(table, hashFunction) && Valid()
    {
      var i := Probe(k);
      if table[i].Some? {
        ClearEntry(table, i);
        if AtHome(table, hashFunction) {
          ClearKeepsHome(table, hashFunction, i);
        }
        table := table[i := None];
        size := size - 1;
        RehashIfNeeded();
      }
      if AtHome(table, hashFunction) {
        AtHomeChained(table, hashFunction);
      }
    }
  }
}

module HashTableScenarios {
  import opened Wrappers
  import opened OpenAddressing
  import Decimal

  /** `std::hash<int>` on a non-negative key: the key itself. */
  function IntHash(k: nat): nat
  {
    k
  }

  /** Keys 0 and 8 share home slot 0 of an eight-slot table: 0 lands in
      slot 0 and 8 in slot 1. */
  method CollidingPair() returns (ht: HashTable<nat, string>)
    ensures fresh(ht) && ht.Valid() && ht.hashFunction == IntHash && ht.size == 2
    ensures |ht.table| == 8 && ht.table[0] == Some((0, "zero")) && ht.table[1] == Some((8, "eight"))
    ensures forall p :: 2 <= p < 8 ==> ht.table[p].None?
  {
    ht := new HashTable(8, IntHash);
    assert ht.StopSlot(0) == 0;
    ht.Insert(0, "zero");
    assert ht.table[0] == Some((0, "zero")) && ht.table[1].None?;
    assert ProbeFrom(ht.table, 8, 0, 1) == 1;
    assert ht.StopSlot(8) == 1;
    ht.Insert(8, "eight");
  }

  /** Once 0 is removed as written, 8 is still stored, but `find` stops
      at the emptied slot 0 and misses it. */
  method LostKeyAsWritten() returns (ht: HashTable<nat, string>, found: Option<string>)
    ensures KeyIn(ht.table, 8) && (8, "eight") in Entries(ht.table)
    ensures found == None
  {
    ht := CollidingPair();
    assert ht.StopSlot(0) == 0;
    ht.RemoveAsWritten(0);
    assert ht.table[1] == Some((8, "eight")) && ht.table[0].None?;
    InEntries(ht.table, 1);
    assert ht.StopSlot(8) == 0;
    found := ht.Find(8);
  }

  /** The same session with the repaired removal finds 8. */
  method KeptKeyCorrected() returns (ht: HashTable<nat, string>, found: Option<string>)
    ensures found == Some("eight")
  {
    ht := CollidingPair();
    EntriesIn(ht.table);
    assert Entries(ht.table) == {(0, "zero"), (8, "eight")};
    ht.Remove(0);
    assert Entries(ht.table) == {(8, "eight")};
    found := ht.Find(8);
  }

  /** The first two inserts of the `InsertAndFind` and `Remove` tests. */
  method OneTwo() returns (ht: HashTable<nat, string>)
    ensures fresh(ht) && ht.Valid()
    ensures Entries(ht.table) == {(1, "one"), (2, "two")}
  {
    ht := new HashTable(8, IntHash);
    ht.Insert(1, "one");
    assert Entries(ht.table) == {(1, "one")};
    ht.Insert(2, "two");
  }

  /** The three inserts of the `InsertAndFind` and `Remove` tests. */
  method OneTwoThree() returns (ht: HashTable<nat, string>)
    ensures fresh(ht) && ht.Valid()
    ensures Entries(ht.table) == {(1, "one"), (2, "two"), (3, "three")}
  {
    ht := OneTwo();
    ht.Insert(3, "three");
  }

  /** The `InsertAndFind` test: 2 is found with its value. */
  method InsertAndFind() returns (value: Option<string>)
    ensures value == Some("two")
  {
    var ht := OneTwoThree();
    value := ht.Find(2);
  }

  /** The `Remove` test: 2 is gone after its removal. */
  method RemoveTwo() returns (value: Option<string>)
    ensures value == None
  {
    var ht := OneTwoThree();
    KeyInEntries(ht.table, 2);
    ht.RemoveAsWritten(2);
    assert forall e: (nat, string) :: e in Entries(ht.table) ==> e.0 != 2;
    value := ht.Find(2);
  }

  /** The `LoadFactorAndRehashInsert` test: inserting key 6 meets load
      6/8 and doubles the table; inserting key 7 does not. */
  method RehashOnInsert() returns (sizeBefore: nat, slotsBefore: nat, sizeAfter: nat, slotsAfter: nat)
    ensures sizeBefore == 7 && slotsBefore == 16 && sizeAfter == 8 && slotsAfter == 16
  {
    var ht: HashTable<nat, string> := new HashTable(8, IntHash);
    var i: nat := 0;
    while i < 7
      invariant i <= 7 && ht.Valid()
      invariant ht.size == i && |ht.table| == (if i <= 6 then 8 else 16)
      invariant forall e: (nat, string) :: e in Entries(ht.table) ==> e.0 < i
    {
      KeyInEntries(ht.table, i);
      ht.Insert(i, Decimal.NatToString(i));
      i := i + 1;
    }
    sizeBefore, slotsBefore := ht.size, |ht.table|;
    KeyInEntries(ht.table, 7);
    ht.Insert(7, "seven");
    sizeAfter, slotsAfter := ht.size, |ht.table|;
  }

  /** Keys below the table size are their own home slots. */
  lemma SmallKeysAtHome(s: set<(nat, string)>, bound: nat, n: nat)
    requires bound < n && forall e :: e in s ==> e.0 < bound
    ensures DistinctHomes(s, IntHash, n) && HomeFree(s, IntHash, bound, n)
  {
    assert bound % n == bound;
    forall x | x in s
      ensures Home(IntHash, x.0, n) == x.0
    {
      assert x.0 % n == x.0;
    }
  }

  /** Keys 6 to 9 have distinct home slots among eight. */
  lemma TopKeysHomes(s: set<(nat, string)>)
    requires forall e :: e in s ==> 6 <= e.0 < 10
    ensures DistinctHomes(s, IntHash, 8)
  {
    forall x, y | x in s && y in s && Home(IntHash, x.0, 8) == Home(IntHash, y.0, 8)
      ensures x.0 == y.0
    {
      assert x.0 % 8 == if x.0 < 8 then x.0 else x.0 - 8;
      assert y.0 % 8 == if y.0 < 8 then y.0 else y.0 - 8;
    }
  }

  /** The keys below `i`, each with its decimal text as its value. */
  ghost predicate HoldsBelow(ht: HashTable<nat, string>, i: nat)
    reads ht
  {
    forall e: (nat, string) :: e in Entries(ht.table) <==> e.0 < i && e.1 == Decimal.NatToString(e.0)
  }

  /** The keys from `i` to 9, each with its decimal text as its value. */
  ghost predicate HoldsFrom(ht: HashTable<nat, string>, i: nat)
    reads ht
  {
    forall e: (nat, string) :: e in Entries(ht.table) <==> i <= e.0 < 10 && e.1 == Decimal.NatToString(e.0)
  }

  /** One step of the insert loop of `RehashIfNeededAfterRemoval`. */
  method InsertNext(ht: HashTable<nat, string>, i: nat)
    requires i < 10 && ht.Valid() && ht.hashFunction == IntHash && AtHome(ht.table, IntHash)
    requires ht.size == i && |ht.table| == (if i <= 6 then 8 else 16) && HoldsBelow(ht, i)
    modifies ht
    ensures ht.Valid() && AtHome(ht.table, IntHash)
    ensures ht.size == i + 1 && |ht.table| == (if i + 1 <= 6 then 8 else 16) && HoldsBelow(ht, i + 1)
  {
    KeyInEntries(ht.table, i);
    SmallKeysAtHome(Entries(ht.table), i, if i < 6 then 8 else 16);
    ht.Insert(i, Decimal.NatToString(i));
  }

  /** One step of the removal loop of `RehashIfNeededAfterRemoval`. */
  method RemoveNext(ht: HashTable<nat, string>, i: nat)
    requires i < 10 && ht.Valid() && ht.hashFunction == IntHash && AtHome(ht.table, IntHash)
    requires ht.size == 10 - i && |ht.table| == (if i < 6 then 16 else 8) && HoldsFrom(ht, i)
    modifies ht
    ensures ht.Valid() && AtHome(ht.table, IntHash)
    ensures ht.size == 10 - (i + 1) && |ht.table| == (if i + 1 < 6 then 16 else 8) && HoldsFrom(ht, i + 1)
  {
    assert (i, Decimal.NatToString(i)) in Entries(ht.table);
    KeyInEntries(ht.table, i);
    ht.RemoveAsWritten(i);
    if i == 5 {
      TopKeysHomes(Entries(ht.table));
    }
  }

  /** The `RehashIfNeededAfterRemoval` test: ten inserts grow the table
      to 16 slots; removing all ten as written halves it when four keys
      remain and resets it to eight slots at the end. No two of these
      keys collide, so every key stays reachable throughout. */
  method ResetAfterRemovals() returns (ht: HashTable<nat, string>)
    ensures ht.size == 0 && |ht.table| == 8
  {
    ht := new HashTable(8, IntHash);
    var i: nat := 0;
    while i < 10
      invariant i <= 10 && ht.Valid() && ht.hashFunction == IntHash && AtHome(ht.table, IntHash)
      invariant ht.size == i && |ht.table| == (if i <= 6 then 8 else 16) && HoldsBelow(ht, i)
    {
      InsertNext(ht, i);
      i := i + 1;
    }
    i := 0;
    while i < 10
      invariant i <= 10 && ht.Valid() && ht.hashFunction == IntHash && AtHome(ht.table, IntHash)
      invariant ht.size == 10 - i && |ht.table| == (if i < 6 then 16 else 8) && HoldsFrom(ht, i)
    {
      RemoveNext(ht, i);
      i := i + 1;
    }
  }
}
