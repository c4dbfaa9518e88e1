/** The quadratic-probing table (autoria/QuadraticProbingHashTable.java): an
    array of slots, a Horner hash with multiplier 31, and probes that add
    `t + t*t` to the previous index at attempt `t`. */
module QuadraticProbing {
  import opened HashFunctions
  import opened ProbeSequences
  import opened Records
  import opened HashTable
  import opened OpenAddressing
  import Statistics

  /** `funcaoHash`: the masked Horner fold, reduced modulo the capacity. */
  method HashIndex(code: string, m: int) returns (i: int)
    requires m >= 1
    ensures i == PrimaryIndex(Quadratic, code, m)
  {
    var hash := MaskedHornerLoop(code, 31, 0);
    i := hash % m;
  }

  class QuadraticProbingTable {
    var slots: array<Slot>
    var collisions: int
    var size: int
    /** The attempt at which each occupied slot was filled. */
    ghost var depth: seq<nat>

    ghost predicate Valid()
      reads this, slots
    {
      slots.Length <= MaxInt && collisions >= 0 &&
      TableInv(Quadratic, slots[..], depth, size)
    }

    ghost function Elements(): set<Record>
      reads this, slots
    {
      Stored(slots[..])
    }

    /** `new QuadraticProbingHashTable(capacidade)`: every slot `null`. */
    constructor (capacity: nat)
      requires capacity <= MaxInt
      ensures Valid() && fresh(slots)
      ensures slots[..] == seq(capacity, _ => Empty)
      ensures collisions == 0 && size == 0 && Elements() == {}
    {
      slots := new Slot[capacity](_ => Empty);
      collisions, size := 0, 0;
      depth := seq(capacity, _ => 0);
      new;
      assert slots[..] == seq(capacity, _ => Empty);
      StoredEmpty(capacity);
    }

    /** The probe loop of `inserir`: walks the path while the slot holds
        another record, one collision per such slot, and leaves at the first
        slot that is free or holds `r` (`present`), or after `capacity`
        attempts. */
    method Locate(r: Record) returns (i: int, tries: int, present: bool)
      requires slots.Length >= 1 && NoDeleted(slots[..])
      modifies this
      ensures slots == old(slots) && size == old(size) && depth == old(depth)
      ensures var path := Path(Quadratic, r.code, slots.Length);
              && tries == Stop(slots[..], r, path, 0)
              && (tries < slots.Length ==> i == path[tries])
              && (present <==> tries < slots.Length && slots[i].Occupied?)
      ensures collisions == old(collisions) + tries
    {
      var m := slots.Length;
      ghost var s := slots[..];
      ghost var path := Path(Quadratic, r.code, m);
      ghost var h := PrimaryIndex(Quadratic, r.code, m);
      i := HashIndex(r.code, m);
      tries := 0;
      while slots[i] != Empty && slots[i] != Deleted && tries < m
        invariant 0 <= tries <= m
        invariant i == Probe(Quadratic, r.code, tries, m)
        invariant forall k :: 0 <= k < tries ==> Blocks(s[path[k]], r)
        invariant collisions == old(collisions) + tries
        invariant slots == old(slots) && size == old(size) && depth == old(depth)
        decreases m - tries
      {
        if slots[i].rec == r {
          StopIs(s, r, path, 0, tries);
          return i, tries, true;
        }
        collisions := collisions + 1;
        tries := tries + 1;
        QuadraticProbeStep(h, tries - 1, m);
        i := RehashQuadratic(i, tries, m);
        if i < 0 {
          i := i + m;
        }
        i := i % m;
      }
      StopIs(s, r, path, 0, tries);
      present := false;
    }

    /** `inserir`: returns on an equal record; stores the record in the free
        slot the probe loop stopped at, unless all `capacity` attempts were
        used. */
    method Insert(r: Record) returns (outcome: Outcome)
      requires Valid() && slots.Length >= 1
      modifies this, slots
      ensures Valid() && slots == old(slots)
      ensures outcome == InsertOutcome(Quadratic, old(slots[..]), r)
      ensures slots[..] == AfterInsert(Quadratic, old(slots[..]), r)
      ensures collisions == old(collisions) + Attempts(Quadratic, old(slots[..]), r)
      ensures size == old(size) + if outcome == Inserted then 1 else 0
    {
      ghost var s := slots[..];
      var i, tries, present := Locate(r);
      LocatedInsert(Quadratic, s, depth, size, r, tries);
      if present {
        return AlreadyPresent;
      }
      if tries < slots.Length {
        slots[i] := Occupied(r);
        assert slots[..] == s[i := Occupied(r)];
        size := size + 1;
        depth := depth[i := tries];
        outcome := Inserted;
      } else {
        outcome := Rejected;
      }
    }

    /** `buscar`: follows the same path, stops at the first `null` slot or
        after `capacity` attempts. */
    method Search(r: Record) returns (found: bool)
      requires Valid() && slots.Length >= 1
      ensures found <==> r in Elements()
    {
      var m := slots.Length;
      ghost var s := slots[..];
      ghost var path := Path(Quadratic, r.code, m);
      ghost var h := PrimaryIndex(Quadratic, r.code, m);
      var i := HashIndex(r.code, m);
      var tries := 0;
      while slots[i] != Empty && tries < m
        invariant 0 <= tries <= m
        invariant i == Probe(Quadratic, r.code, tries, m)
        invariant forall k :: 0 <= k < tries ==> Blocks(s[path[k]], r)
        decreases m - tries
      {
        if slots[i] != Deleted && slots[i].rec == r {
          StopIs(s, r, path, 0, tries);
          FoundAt(Quadratic, s, r, tries);
          return true;
        }
        tries := tries + 1;
        QuadraticProbeStep(h, tries - 1, m);
        i := RehashQuadratic(i, tries, m);
        if i < 0 {
          i := i + m;
        }
        i := i % m;
      }
      StopIs(s, r, path, 0, tries);
      if tries < m {
        FreeAt(Quadratic, s, depth, size, r, tries);
      } else {
        PathFull(Quadratic, s, depth, r);
      }
      found := false;
    }

    /** `getTamanho`: the number of records stored, never more than the
        capacity. */
    function Size(): (n: int)
      reads this, slots
      requires Valid()
      ensures n == |Elements()| && 0 <= n <= slots.Length
    {
      StoredBound(slots[..]);
      size
    }

    /** `getMaiorLista`, inherited from the interface: this table has no
        lists, so it reports the default 0. */
    function LargestList(): (n: int)
      ensures n == DefaultLargestList
    {
      DefaultLargestList
    }

    /** `getTresMaioresListas`, inherited from the interface: no list sizes. */
    function TopThreeLists(): (top: seq<int>)
      ensures top == DefaultTopThree
    {
      DefaultTopThree
    }

    /** `getColisoes`. */
    function Collisions(): (c: int)
      reads this, slots
      requires Valid()
      ensures c >= 0
    {
      collisions
    }

    /** `getGaps`, over the slots that hold a record. */
    method Gaps() returns (g: seq<int>)
      requires Valid()
      ensures g == Statistics.GapSummary(Occupancy(slots[..]))
      ensures |g| == 3 && 0 <= g[0] <= g[2] <= g[1]
    {
      var a := slots;
      var occ := seq(a.Length, j requires 0 <= j < a.Length reads a => a[j] != Empty && a[j] != Deleted);
      assert occ == Occupancy(slots[..]);
      g := Statistics.Gaps(occ);
      Statistics.GapSummaryBounds(occ);
    }
  }
}
