/** The two-level map of the vehicle database. */
module LdmMap {
  import opened LdmFlat
  import opened MachineWords

  type Lower = map<nat, Entry>

  function KeyUpper(stationID: nat): (k: nat)
    ensures k < TWO_16
  {
    stationID / TWO_16 % TWO_16
  }

  function KeyLower(stationID: nat): (k: nat)
    ensures k < TWO_16
  {
    stationID % TWO_16
  }

  function Compose(upper: nat, lower: nat): nat {
    upper * TWO_16 + lower
  }

  lemma ComposeKeys(stationID: nat)
    ensures Compose(KeyUpper(stationID), KeyLower(stationID)) == Id(stationID)
  {
    var h := stationID / TWO_16;
    assert stationID == h * TWO_16 + KeyLower(stationID);
    assert h == h / TWO_16 * TWO_16 + KeyUpper(stationID);
    assert stationID == h / TWO_16 * TWO_32 + Compose(KeyUpper(stationID), KeyLower(stationID));
  }

  lemma KeysOfComposed(upper: nat, lower: nat)
    requires upper < TWO_16 && lower < TWO_16
    ensures Compose(upper, lower) < TWO_32
    ensures KeyUpper(Compose(upper, lower)) == upper && KeyLower(Compose(upper, lower)) == lower
  {
  }

  predicate Has(upper: map<nat, Lower>, id: nat) {
    KeyUpper(id) in upper && KeyLower(id) in upper[KeyUpper(id)]
  }

  /** The flat map that a two-level one stands for. */
  ghost function FlatOf(upper: map<nat, Lower>): (m: Flat)
    ensures Bounded(m)
  {
    map id: nat | id < TWO_32 && Has(upper, id) :: upper[KeyUpper(id)][KeyLower(id)]
  }

  /** All keys have 16 bits. */
  ghost predicate Keys16(upper: map<nat, Lower>) {
    forall k :: k in upper ==> k < TWO_16 && forall l :: l in upper[k] ==> l < TWO_16
  }

  /** Every entry is stored under the identifier of its station. */
  ghost predicate Keyed(m: Flat) {
    forall id :: id in m ==> Id(m[id].vehData.stationID) == id
  }

  lemma FlatAt(upper: map<nat, Lower>, stationID: nat)
    ensures Id(stationID) in FlatOf(upper) <==> Has(upper, stationID)
    ensures Has(upper, stationID) ==> FlatOf(upper)[Id(stationID)] == upper[KeyUpper(stationID)][KeyLower(stationID)]
  {
    ComposeKeys(stationID);
    KeysOfComposed(KeyUpper(stationID), KeyLower(stationID));
  }

  /** Different identifiers differ in one of their keys. */
  lemma SameKeys(a: nat, b: nat)
    requires a < TWO_32 && b < TWO_32 && KeyUpper(a) == KeyUpper(b) && KeyLower(a) == KeyLower(b)
    ensures a == b
  {
  }

  /** Changing the entry under the keys of an identifier changes the flat map there, and nowhere else. */
  lemma FlatStore(upper: map<nat, Lower>, stationID: nat, lower: Lower, e: Entry)
    requires var k := KeyUpper(stationID);
             lower == (if k in upper then upper[k] else map[])[KeyLower(stationID) := e]
    ensures FlatOf(upper[KeyUpper(stationID) := lower]) == FlatOf(upper)[Id(stationID) := e]
  {
    hide KeyUpper, KeyLower, Id;
    var upper' := upper[KeyUpper(stationID) := lower];
    FlatAt(upper', stationID);
    KeysOfId(stationID);
    forall id: nat | id < TWO_32 && id != Id(stationID)
      ensures Has(upper', id) <==> Has(upper, id)
      ensures Has(upper, id) ==> upper'[KeyUpper(id)][KeyLower(id)] == upper[KeyUpper(id)][KeyLower(id)]
    {
      if KeyUpper(id) == KeyUpper(stationID) && KeyLower(id) == KeyLower(stationID) {
        SameKeys(id, Id(stationID));
      }
    }
  }

  lemma KeysOfId(stationID: nat)
    ensures KeyUpper(Id(stationID)) == KeyUpper(stationID) && KeyLower(Id(stationID)) == KeyLower(stationID)
  {
    ComposeKeys(stationID);
    KeysOfComposed(KeyUpper(stationID), KeyLower(stationID));
  }

  /** Erasing the entry under the keys of an identifier. */
  lemma FlatErase(upper: map<nat, Lower>, stationID: nat)
    requires Has(upper, stationID)
    ensures FlatOf(upper[KeyUpper(stationID) := upper[KeyUpper(stationID)] - {KeyLower(stationID)}])
         == FlatOf(upper) - {Id(stationID)}
  {
    hide KeyUpper, KeyLower, Id;
    var upper' := upper[KeyUpper(stationID) := upper[KeyUpper(stationID)] - {KeyLower(stationID)}];
    FlatAt(upper', stationID);
    KeysOfId(stationID);
    forall id: nat | id < TWO_32 && id != Id(stationID)
      ensures Has(upper', id) <==> Has(upper, id)
    {
      if KeyUpper(id) == KeyUpper(stationID) && KeyLower(id) == KeyLower(stationID) {
        SameKeys(id, Id(stationID));
      }
    }
  }

  lemma Without(all: set<nat>, left: set<nat>, k: nat)
    requires k in left && left <= all
    ensures all - (left - {k}) == (all - left) + {k}
  {
  }

  lemma WithoutAll(all: set<nat>)
    ensures all - all == {} && all - {} == all
  {
  }

  class LdmMap {
    var upper: map<nat, Lower>
    var card: nat

    ghost predicate Valid()
      reads this
    {
      Keys16(upper) && Keyed(Flat()) && card < TWO_64
    }

    ghost function Flat(): Flat
      reads this
    {
      FlatOf(upper)
    }

    /** The cardinality is the number of entries. */
    ghost predicate Counted()
      reads this
    {
      card == |Flat()|
    }

    constructor ()
      ensures Valid() && Flat() == map[] && Counted()
    {
      upper, card := map[], 0;
    }

    method Insert(veh: VehicleData) returns (status: Status)
      requires Valid()
      modifies this
      ensures Valid()
      ensures old(card) == TWO_64 - 1 ==> status == MapFull && upper == old(upper) && card == old(card)
      ensures old(card) < TWO_64 - 1 ==>
        && status == (if Id(veh.stationID) in old(Flat()) then Updated else Ok)
        && Flat() == Inserted(old(Flat()), veh)
        && card == old(card) + (if status == Ok then 1 else 0)
      ensures old(Counted()) ==> Counted() && status != MapFull
    {
      hide KeyUpper, KeyLower, Id, FlatOf;
      ghost var m, was := Flat(), upper;
      var k, l := KeyUpper(veh.stationID), KeyLower(veh.stationID);
      if Counted() {
        NeverFull(m);
      }
      if card == TWO_64 - 1 {
        return MapFull;
      }
      FlatAt(upper, veh.stationID);
      InsertedSize(m, veh);
      ghost var lower := (if k in upper then upper[k] else map[])[l := InsertEntry(m, veh)];
      FlatStore(upper, veh.stationID, lower, InsertEntry(m, veh));
      if k !in upper {
        upper := upper[k := map[l := Entry(veh, [])]];
        card := card + 1;
        status := Ok;
      } else {
        if l !in upper[k] {
          card := card + 1;
          status := Ok;
        } else {
          status := Updated;
        }
        upper := upper[k := upper[k][l := Entry(veh, if status == Ok then [] else upper[k][l].history)]];
      }
      FeedHistory(k, l, veh);
      assert upper[k] == lower;
      assert upper == was[k := lower];
    }

    /** The data goes to the path history of the entry. */
    method FeedHistory(k: nat, l: nat, veh: VehicleData)
      requires k in upper && l in upper[k]
      modifies this`upper
      ensures var e := old(upper)[k][l];
              upper == old(upper)[k := old(upper)[k][l := e.(history := e.history + [veh])]]
    {
      var e := upper[k][l];
      upper := upper[k := upper[k][l := e.(history := e.history + [veh])]];
    }

    /** `m_card--` */
    method CountDown()
      requires card < TWO_64
      modifies this`card
      ensures card < TWO_64 && card == Wrap64(old(card) - 1)
    {
      card := Wrap64(card - 1);
    }

    /**
     The key erased is the whole identifier, cut down to the 32 bits of a key, and not its lower
     half: for identifiers from 2^16 on the entry stays, and only the cardinality goes down.
     */
    method Remove(stationID: nat) returns (status: Status)
      requires Valid()
      modifies this
      ensures Valid() && status == (if Id(stationID) in old(Flat()) then Ok else ItemNotFound)
      ensures status == ItemNotFound ==> upper == old(upper) && card == old(card)
      ensures status == Ok ==>
        && card == Wrap64(old(card) - 1)
        && Flat() == if Id(stationID) < TWO_16 then Removed(old(Flat()), stationID) else old(Flat())
      ensures old(Counted()) ==> (Counted() <==> status == ItemNotFound || Id(stationID) < TWO_16)
    {
      hide KeyUpper, KeyLower, FlatOf, Id, Wrap64;
      ghost var m := Flat();
      FlatAt(upper, stationID);
      var k, l := KeyUpper(stationID), KeyLower(stationID);
      if k !in upper {
        return ItemNotFound;
      }
      if l !in upper[k] {
        return ItemNotFound;
      }
      EraseWhole(upper, stationID);
      RemovedSize(m, stationID);
      NeverFull(m);
      WrapSmall(card - 1);
      upper := upper[k := upper[k] - {Id(stationID)}];
      CountDown();
      status := Ok;
    }

    /** What erasing by the whole identifier does. */
    lemma EraseWhole(upper: map<nat, Lower>, stationID: nat)
      requires Keys16(upper) && Has(upper, stationID)
      ensures Id(stationID) < TWO_16 ==> KeyLower(stationID) == Id(stationID)
      ensures FlatOf(upper[KeyUpper(stationID) := upper[KeyUpper(stationID)] - {Id(stationID)}])
           == if Id(stationID) < TWO_16 then FlatOf(upper) - {Id(stationID)} else FlatOf(upper)
    {
      hide FlatOf;
      ComposeKeys(stationID);
      if Id(stationID) < TWO_16 {
        FlatErase(upper, stationID);
      } else {
        assert Id(stationID) !in upper[KeyUpper(stationID)];
        assert upper[KeyUpper(stationID)] - {Id(stationID)} == upper[KeyUpper(stationID)];
        assert upper[KeyUpper(stationID) := upper[KeyUpper(stationID)]] == upper;
      }
    }

    method Lookup(stationID: nat) returns (status: Status, data: Option<Entry>)
      requires Valid()
      ensures data == if Id(stationID) in Flat() then Some(Flat()[Id(stationID)]) else None
      ensures status == if data.Some? then Ok else ItemNotFound
    {
      FlatAt(upper, stationID);
      var k, l := KeyUpper(stationID), KeyLower(stationID);
      if k !in upper {
        return ItemNotFound, None;
      }
      if l !in upper[k] {
        return ItemNotFound, None;
      }
      return Ok, Some(upper[k][l]);
    }

    lemma IdOfComposed(k: nat, l: nat)
      requires k < TWO_16 && l < TWO_16
      ensures Id(Compose(k, l)) == Compose(k, l)
    {
    }

    /** One entry of a lower map is erased. */
    method EraseEntry(k: nat, l: nat)
      requires Valid() && k in upper && l in upper[k]
      modifies this
      ensures Valid() && upper == old(upper)[k := old(upper)[k] - {l}]
      ensures Flat() == old(Flat()) - {Compose(k, l)} && card == Wrap64(old(card) - 1)
    {
      hide KeyUpper, KeyLower, FlatOf, Compose, Id;
      KeysOfComposed(k, l);
      FlatErase(upper, Compose(k, l));
      IdOfComposed(k, l);
      upper := upper[k := upper[k] - {l}];
      CountDown();
    }

    /** How far a cleaning has come that started with the entries `m` and the cardinality `start`. */
    ghost predicate Progress(m: Flat, seen: set<nat>, calls: seq<nat>, now: nat, limit: real, start: nat)
      reads this
    {
      && Valid() && Keyed(m) && Bounded(m)
      && Flat() == CleanedWithin(m, seen, now, limit) && CalledOnce(calls, m, seen, now, limit)
      && card == Wrap64(start - |calls|)
    }

    /** One entry is looked at, and erased if it is too old. */
    method Visit(k: nat, l: nat, now: nat, timeMilliseconds: real, before: seq<nat>,
                 ghost m: Flat, ghost seen: set<nat>, ghost start: nat) returns (calls: seq<nat>)
      requires Progress(m, seen, before, now, timeMilliseconds, start)
      requires k in upper && l in upper[k] && Compose(k, l) !in seen
      modifies this
      ensures Progress(m, seen + {Compose(k, l)}, calls, now, timeMilliseconds, start)
      ensures upper.Keys == old(upper).Keys && old(upper)[k].Keys - {l} <= upper[k].Keys
    {
      hide KeyUpper, KeyLower, FlatOf, Id, Compose, CalledOnce, CleanedWithin, Wrap64;
      WrapMinusOne(start, |before|);
      ghost var id := Compose(k, l);
      KeysOfComposed(k, l);
      IdOfComposed(k, l);
      FlatAt(upper, id);
      CleanedFrom(m, seen, now, timeMilliseconds, id);
      CleanStep(m, seen, id, now, timeMilliseconds, before);
      calls := before;
      if Wrap64(now - upper[k][l].vehData.timestampUs) as real / 1000.0 > timeMilliseconds {
        calls := calls + [upper[k][l].vehData.stationID];
        EraseEntry(k, l);
      }
    }

    lemma CleanedFrom(m: Flat, seen: set<nat>, now: nat, limit: real, id: nat)
      requires id in CleanedWithin(m, seen, now, limit)
      ensures id in m && CleanedWithin(m, seen, now, limit)[id] == m[id]
    {
    }

    /** The entries looked at are those of the upper keys in `done` and of the lower keys of `k` in `doneLower`. */
    ghost predicate Looked(m: Flat, seen: set<nat>, done: set<nat>, k: nat, doneLower: set<nat>) {
      forall id :: id in m ==>
        (id in seen <==> KeyUpper(id) in done || (KeyUpper(id) == k && KeyLower(id) in doneLower))
    }

    lemma LookedStep(m: Flat, seen: set<nat>, done: set<nat>, k: nat, doneLower: set<nat>, l: nat)
      requires Looked(m, seen, done, k, doneLower) && k < TWO_16 && l < TWO_16 && Bounded(m)
      ensures Looked(m, seen + {Compose(k, l)}, done, k, doneLower + {l})
    {
    }

    /** All entries of an upper key have been looked at. */
    lemma LookedAll(m: Flat, seen0: set<nat>, seen: set<nat>, now: nat, limit: real, upper0: map<nat, Lower>,
                    done: set<nat>, k: nat)
      requires k in upper0 && k !in done && FlatOf(upper0) == CleanedWithin(m, seen0, now, limit)
      requires Looked(m, seen0, done, k, {}) && Looked(m, seen, done, k, upper0[k].Keys)
      ensures Looked(m, seen, done + {k}, k, {})
    {
      hide KeyUpper, KeyLower;
      forall id | id in m && KeyUpper(id) == k
        ensures KeyLower(id) in upper0[k].Keys
      {
        assert id in CleanedWithin(m, seen0, now, limit);
        assert id in FlatOf(upper0);
      }
    }

    /** The loop over one lower map. */
    method CleanLower(k: nat, now: nat, timeMilliseconds: real, before: seq<nat>,
                      ghost m: Flat, ghost seen0: set<nat>, ghost done: set<nat>, ghost start: nat)
      returns (calls: seq<nat>, ghost seen: set<nat>)
      requires Progress(m, seen0, before, now, timeMilliseconds, start) && seen0 <= m.Keys
      requires k in upper && k !in done && Looked(m, seen0, done, 0, {})
      modifies this
      ensures Progress(m, seen, calls, now, timeMilliseconds, start) && seen <= m.Keys
      ensures upper.Keys == old(upper).Keys && Looked(m, seen, done + {k}, 0, {})
    {
      hide KeyUpper, KeyLower, FlatOf, CalledOnce, CleanedWithin, Compose, Looked, Wrap64;
      calls, seen := before, seen0;
      var lowers := upper[k].Keys;
      LookedNone(m, seen0, done, k);
      WithoutAll(lowers);
      while lowers != {}
        invariant Progress(m, seen, calls, now, timeMilliseconds, start) && seen <= m.Keys
        invariant upper.Keys == old(upper).Keys && lowers <= upper[k].Keys && lowers <= old(upper)[k].Keys
        invariant Looked(m, seen, done, k, old(upper)[k].Keys - lowers)
        decreases |lowers|
      {
        var l :| l in lowers;
        ghost var doneLower := old(upper)[k].Keys - lowers;
        NotSeen(m, seen, now, timeMilliseconds, upper, done, k, doneLower, l);
        calls := Visit(k, l, now, timeMilliseconds, calls, m, seen, start);
        LookedStep(m, seen, done, k, doneLower, l);
        seen := seen + {Compose(k, l)};
        Without(old(upper)[k].Keys, lowers, l);
        lowers := lowers - {l};
      }
      WithoutAll(old(upper)[k].Keys);
      LookedAll(m, seen0, seen, now, timeMilliseconds, old(upper), done, k);
      LookedNone(m, seen, done + {k}, k);
    }

    lemma LookedNone(m: Flat, seen: set<nat>, done: set<nat>, k: nat)
      ensures Looked(m, seen, done, k, {}) <==> Looked(m, seen, done, 0, {})
    {
    }

    /** An entry that is next has not been looked at. */
    lemma NotSeen(m: Flat, seen: set<nat>, now: nat, limit: real, upper0: map<nat, Lower>,
                  done: set<nat>, k: nat, doneLower: set<nat>, l: nat)
      requires Keys16(upper0) && k in upper0 && l in upper0[k] && k !in done && l !in doneLower
      requires FlatOf(upper0) == CleanedWithin(m, seen, now, limit) && Looked(m, seen, done, k, doneLower)
      ensures Compose(k, l) in m && Compose(k, l) !in seen
    {
      hide KeyUpper, KeyLower, Compose, FlatOf;
      KeysOfComposed(k, l);
      IdOfComposed(k, l);
      FlatAt(upper0, Compose(k, l));
      CleanedFrom(m, seen, now, limit, Compose(k, l));
    }

    /** The loop over the upper map. */
    method CleanAll(now: nat, timeMilliseconds: real) returns (calls: seq<nat>)
      requires Valid()
      modifies this
      ensures Valid() && Flat() == Cleaned(old(Flat()), now, timeMilliseconds)
      ensures CalledOnce(calls, old(Flat()), old(Flat()).Keys, now, timeMilliseconds)
      ensures card == Wrap64(old(card) - |calls|)
    {
      hide KeyUpper, KeyLower, FlatOf, CalledOnce, CleanedWithin, Cleaned, Looked, Wrap64;
      WrapSmall(card);
      ghost var m := Flat();
      ghost var seen: set<nat> := {};
      CleanStart(m, now, timeMilliseconds);
      LookedStart(m);
      calls := [];
      var keys := upper.Keys;
      WithoutAll(old(upper).Keys);
      while keys != {}
        invariant Progress(m, seen, calls, now, timeMilliseconds, old(card))
        invariant upper.Keys == old(upper).Keys && keys <= upper.Keys && seen <= m.Keys
        invariant Looked(m, seen, old(upper).Keys - keys, 0, {})
        decreases |keys|
      {
        var k :| k in keys;
        ghost var done := old(upper).Keys - keys;
        calls, seen := CleanLower(k, now, timeMilliseconds, calls, m, seen, done, old(card));
        Without(old(upper).Keys, keys, k);
        keys := keys - {k};
      }
      AllSeen(m, seen, old(upper));
      CleanEnd(m, seen, now, timeMilliseconds);
      assert seen == m.Keys;
    }

    /** Removes the entries that are too old, and calls back once for each of them. */
    method DeleteOlderThanAndExecute(now: nat, timeMilliseconds: real) returns (calls: seq<nat>)
      requires Valid()
      modifies this
      ensures Valid() && Flat() == Cleaned(old(Flat()), now, timeMilliseconds)
      ensures CalledOnce(calls, old(Flat()), old(Flat()).Keys, now, timeMilliseconds)
      ensures card == Wrap64(old(card) - |calls|) && (old(Counted()) ==> Counted())
    {
      hide FlatOf, Cleaned, CalledOnce, Wrap64;
      ghost var m, start := Flat(), card;
      calls := CleanAll(now, timeMilliseconds);
      CountedAfter(calls, m, now, timeMilliseconds, start);
    }

    method DeleteOlderThan(now: nat, timeMilliseconds: real)
      requires Valid()
      modifies this
      ensures Valid() && Flat() == Cleaned(old(Flat()), now, timeMilliseconds)
      ensures old(Counted()) ==> Counted()
    {
      var _ := DeleteOlderThanAndExecute(now, timeMilliseconds);
    }

    lemma LookedStart(m: Flat)
      ensures Looked(m, {}, {}, 0, {})
    {
    }

    lemma AllSeen(m: Flat, seen: set<nat>, upper0: map<nat, Lower>)
      requires m == FlatOf(upper0) && Looked(m, seen, upper0.Keys, 0, {})
      ensures m.Keys <= seen
    {
    }

    lemma CountedAfter(calls: seq<nat>, m: Flat, now: nat, limit: real, start: nat)
      requires CalledOnce(calls, m, m.Keys, now, limit) && Bounded(m)
      ensures start == |m| ==> Wrap64(start - |calls|) == |Cleaned(m, now, limit)|
    {
      CleanEnd(m, m.Keys, now, limit);
      NeverFull(m);
    }

    /** The loop of `rangeSelect` over one lower map. */
    method SelectLower(k: nat, c: Circle, before: seq<Entry>, ghost seen0: set<nat>, ghost done: set<nat>)
      returns (found: seq<Entry>, ghost seen: set<nat>)
      requires Valid() && k in upper && k !in done && seen0 <= Flat().Keys
      requires Looked(Flat(), seen0, done, 0, {}) && SelectedOnce(before, Flat(), seen0, c)
      ensures seen <= Flat().Keys && Looked(Flat(), seen, done + {k}, 0, {}) && SelectedOnce(found, Flat(), seen, c)
    {
      hide KeyUpper, KeyLower, FlatOf, SelectedOnce, Looked, Inside, Compose, Id;
      ghost var m := Flat();
      found, seen := before, seen0;
      LookedNone(m, seen0, done, k);
      WithoutAll(upper[k].Keys);
      var lowers := upper[k].Keys;
      while lowers != {}
        invariant lowers <= upper[k].Keys && seen <= m.Keys
        invariant Looked(m, seen, done, k, upper[k].Keys - lowers) && SelectedOnce(found, m, seen, c)
        decreases |lowers|
      {
        var l :| l in lowers;
        ghost var doneLower := upper[k].Keys - lowers;
        EntryNotSeen(m, seen, done, k, doneLower, l);
        SelectStep(found, m, seen, Compose(k, l), c);
        if Inside(upper[k][l], c) {
          found := found + [upper[k][l]];
        }
        LookedStep(m, seen, done, k, doneLower, l);
        seen := seen + {Compose(k, l)};
        Without(upper[k].Keys, lowers, l);
        lowers := lowers - {l};
      }
      LookedWhole(m, seen, done, k);
      LookedNone(m, seen, done + {k}, k);
    }

    lemma EntryNotSeen(m: Flat, seen: set<nat>, done: set<nat>, k: nat, doneLower: set<nat>, l: nat)
      requires m == Flat() && Keys16(upper) && k in upper && l in upper[k] && k !in done && l !in doneLower
      requires Looked(m, seen, done, k, doneLower)
      ensures Compose(k, l) in m && Compose(k, l) !in seen && m[Compose(k, l)] == upper[k][l]
    {
    }

    lemma LookedWhole(m: Flat, seen: set<nat>, done: set<nat>, k: nat)
      requires m == Flat() && k in upper && Looked(m, seen, done, k, upper[k].Keys)
      ensures Looked(m, seen, done + {k}, k, {})
    {
    }

    /** The two loops of `rangeSelect` around a position: each entry in the circle is appended once. */
    method RangeSelect(c: Circle, before: seq<Entry>) returns (status: Status, selected: seq<Entry>)
      requires Valid()
      ensures status == Ok && |before| <= |selected| && selected[..|before|] == before
      ensures SelectedOnce(selected[|before|..], Flat(), Flat().Keys, c)
      ensures forall i :: 0 <= i < |selected| - |before| ==>
        var veh := selected[|before|..][i].vehData;
        && Id(veh.stationID) in Flat() && selected[|before|..][i] == Flat()[Id(veh.stationID)]
        && c.distance(c.lat, c.lon, veh.lat, veh.lon) <= c.range
      ensures forall id :: id in Flat() ==>
        var veh := Flat()[id].vehData;
        c.distance(c.lat, c.lon, veh.lat, veh.lon) <= c.range ==> Flat()[id] in selected[|before|..]
    {
      hide KeyUpper, KeyLower, FlatOf, SelectedOnce, Looked, Inside, Id;
      ghost var m := Flat();
      ghost var seen: set<nat> := {};
      var found: seq<Entry> := [];
      LookedStart(m);
      SelectedNone(m, c);
      WithoutAll(upper.Keys);
      var keys := upper.Keys;
      while keys != {}
        invariant keys <= upper.Keys && seen <= m.Keys
        invariant Looked(m, seen, upper.Keys - keys, 0, {}) && SelectedOnce(found, m, seen, c)
        decreases |keys|
      {
        var k :| k in keys;
        found, seen := SelectLower(k, c, found, seen, upper.Keys - keys);
        Without(upper.Keys, keys, k);
        keys := keys - {k};
      }
      AllSeen(m, seen, upper);
      assert seen == m.Keys;
      selected := before + found;
      assert selected[|before|..] == found;
      SelectedInCircle(found, m, c);
      status := Ok;
    }

    lemma SelectedInCircle(found: seq<Entry>, m: Flat, c: Circle)
      requires SelectedOnce(found, m, m.Keys, c)
      ensures forall i :: 0 <= i < |found| ==>
        var veh := found[i].vehData;
        && Id(veh.stationID) in m && found[i] == m[Id(veh.stationID)]
        && c.distance(c.lat, c.lon, veh.lat, veh.lon) <= c.range
      ensures forall id :: id in m ==>
        var veh := m[id].vehData;
        c.distance(c.lat, c.lon, veh.lat, veh.lon) <= c.range ==> m[id] in found
    {
    }

    lemma SelectedNone(m: Flat, c: Circle)
      ensures SelectedOnce([], m, {}, c)
    {
    }

    /** `rangeSelect` around a station */
    method RangeSelectAround(range: real, stationID: nat, distance: (real, real, real, real) -> real,
                             before: seq<Entry>)
      returns (status: Status, selected: seq<Entry>)
      requires Valid()
      ensures status == if Id(stationID) in Flat() then Ok else ItemNotFound
      ensures |before| <= |selected| && selected[..|before|] == before
      ensures status == ItemNotFound ==> selected == before
      ensures status == Ok ==>
        var centre := Flat()[Id(stationID)].vehData;
        && SelectedOnce(selected[|before|..], Flat(), Flat().Keys, Circle(range, centre.lat, centre.lon, distance))
        && forall id :: id in Flat() ==>
             (Flat()[id] in selected[|before|..] <==>
                distance(centre.lat, centre.lon, Flat()[id].vehData.lat, Flat()[id].vehData.lon) <= range)
    {
      hide FlatOf, SelectedOnce, Id;
      var found, data := Lookup(stationID);
      if found != Ok {
        return ItemNotFound, before;
      }
      var c := Circle(range, data.value.vehData.lat, data.value.vehData.lon, distance);
      status, selected := RangeSelect(c, before);
    }

    method Clear()
      requires Valid()
      modifies this
      ensures Valid() && Flat() == map[] && Counted()
    {
      upper, card := map[], 0;
    }
  }

  /**
   A station whose identifier has more than 16 bits can be removed again and again; the second
   time the cardinality wraps around, and nothing can be inserted any more.
   */
  method RemoveTwice(veh: VehicleData, other: VehicleData) returns (first: Status, second: Status, last: Status)
    requires Id(veh.stationID) >= TWO_16
    ensures first == second == Ok && last == MapFull
  {
    hide Id, FlatOf, Wrap64;
    WrapBelow();
    WrapSmall(0);
    var db := new LdmMap();
    last := db.Insert(veh);
    first := db.Remove(veh.stationID);
    second := db.Remove(veh.stationID);
    last := db.Insert(other);
  }
}
