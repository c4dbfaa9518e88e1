/** The linear-probing table (autoria/LinearProbingHashTable.java): an array
    of slots, a 64-bit multiplicative hash, and probes that step to the next
    slot. */
module LinearProbing {
  import opened HashFunctions
  import opened ProbeSequences
  import opened Records
  import opened HashTable
  import opened OpenAddressing
  import Statistics

  /** `funcaoHash`: a Horner fold with Knuth's constant in a wrapping `long`,
      masked to 31 bits once at the end, then reduced modulo the capacity. */
  method HashIndex(code: string, m: int) returns (i: int)
    requires m >= 1
    ensures i == PrimaryIndex(Linear, code, m)
  {
    var hash := 0;
    for j := 0 to |code|
      invariant hash == LinearWide(code[..j])
    {
      assert code[..j + 1][..j] == code[..j];
      hash := Wrap64(hash * LinearMultiplier + Digit(code[j]));
    }
    assert code[..|code|] == code;
    LinearHashIsLow31Bits(code);
    i := Mask31(hash) % m;
  }

  class LinearProbingTable {
    var slots: array<Slot>
    var collisions: int
    var size: int
    /** The attempt at which each occupied slot was filled. */
    ghost var depth: seq<nat>

    ghost predicate Valid()
      reads this, slots
    {
      slots.Length <= MaxInt && collisions >= 0 &&
      TableInv(Linear, slots[..], depth, size)
    }

    ghost function Elements(): set<Record>
      reads this, slots
    {
      Stored(slots[..])
    }

    /** `new LinearProbingHashTable(capacidade)`: every slot `null`. */
    constructor (capacity: nat)
      requires capacity <= MaxInt
      ensures Valid() && fresh(slots)
      ensures slots[..] == seq(capacity, _ => Empty)
      ensures collisions == 0 && size == 0 && Elements() == {}
    {
      slots := new Slot[capacity](_ => Empty);
      collisions, size := 0, 0;
      depth := seq(capacity, _ => 0);
      new;
      assert slots[..] == seq(capacity, _ => Empty);
      StoredEmpty(capacity);
    }

    /** The probe loop of `inserir`: walks the path while the slot holds
        another record, one collision per such slot, and leaves at the first
        slot that is free or holds `r` (`present`), or after `capacity`
        attempts. */
    method Locate(r: Record) returns (i: int, tries: int, present: bool)
      requires slots.Length >= 1 && NoDeleted(slots[..])
      modifies this
      ensures slots == old(slots) && size == old(size) && depth == old(depth)
      ensures var path := Path(Linear, r.code, slots.Length);
              && tries == Stop(slots[..], r, path, 0)
              && (tries < slots.Length ==> i == path[tries])
              && (present <==> tries < slots.Length && slots[i].Occupied?)
      ensures collisions == old(collisions) + tries
    {
      var m := slots.Length;
      ghost var s := slots[..];
      ghost var path := Path(Linear, r.code, m);
      i := HashIndex(r.code, m);
      ModOfSmall(i, m);
      tries := 0;
      while slots[i] != Empty && slots[i] != Deleted && tries < m
        invariant 0 <= tries <= m
        invariant i == Probe(Linear, r.code, tries, m)
        invariant forall k :: 0 <= k < tries ==> Blocks(s[path[k]], r)
        invariant collisions == old(collisions) + tries
        invariant slots == old(slots) && size == old(size) && depth == old(depth)
        decreases m - tries
      {
        if slots[i].rec == r {
          StopIs(s, r, path, 0, tries);
          return i, tries, true;
        }
        collisions := collisions + 1;
        LinearProbeStep(PrimaryIndex(Linear, r.code, m), tries, m);
        i := RehashLinear(i, m);
        tries := tries + 1;
      }
      StopIs(s, r, path, 0, tries);
      present := false;
    }

    /** `inserir`: returns on an equal record; stores the record in the free
        slot the probe loop stopped at, unless all `capacity` attempts were
        used. */
    method Insert(r: Record) returns (outcome: Outcome)
      requires Valid() && slots.Length >= 1
      modifies this, slots
      ensures Valid() && slots == old(slots)
      ensures outcome == InsertOutcome(Linear, old(slots[..]), r)
      ensures slots[..] == AfterInsert(Linear, old(slots[..]), r)
      ensures collisions == old(collisions) + Attempts(Linear, old(slots[..]), r)
      ensures size == old(size) + if outcome == Inserted then 1 else 0
    {
      ghost var s := slots[..];
      var i, tries, present := Locate(r);
      LocatedInsert(Linear, s, depth, size, r, tries);
      if present {
        return AlreadyPresent;
      }
      if tries < slots.Length {
        slots[i] := Occupied(r);
        assert slots[..] == s[i := Occupied(r)];
        size := size + 1;
        depth := depth[i := tries];
        outcome := Inserted;
      } else {
        outcome := Rejected;
      }
    }

    /** `buscar`: follows the same path, stops at the first `null` slot or
        after `capacity` attempts. */
    method Search(r: Record) returns (found: bool)
      requires Valid() && slots.Length >= 1
      ensures found <==> r in Elements()
    {
      var m := slots.Length;
      ghost var s := slots[..];
      ghost var path := Path(Linear, r.code, m);
      var i := HashIndex(r.code, m);
      ModOfSmall(i, m);
      var tries := 0;
      while slots[i] != Empty && tries < m
        invariant 0 <= tries <= m
        invariant i == Probe(Linear, r.code, tries, m)
        invariant forall k :: 0 <= k < tries ==> Blocks(s[path[k]], r)
        decreases m - tries
      {
        if slots[i] != Deleted && slots[i].rec == r {
          StopIs(s, r, path, 0, tries);
          FoundAt(Linear, s, r, tries);
          return true;
        }
        LinearProbeStep(PrimaryIndex(Linear, r.code, m), tries, m);
        i := RehashLinear(i, m);
        tries := tries + 1;
      }
      StopIs(s, r, path, 0, tries);
      if tries < m {
        FreeAt(Linear, s, depth, size, r, tries);
      } else {
        PathFull(Linear, s, depth, r);
      }
      found := false;
    }

    /** `getTamanho`: the number of records stored, never more than the
        capacity. */
    function Size(): (n: int)
      reads this, slots
      requires Valid()
      ensures n == |Elements()| && 0 <= n <= slots.Length
    {
      StoredBound(slots[..]);
      size
    }

    /** `getMaiorLista`, inherited from the interface: this table has no
        lists, so it reports the default 0. */
    function LargestList(): (n: int)
      ensures n == DefaultLargestList
    {
      DefaultLargestList
    }

    /** `getTresMaioresListas`, inherited from the interface: no list sizes. */
    function TopThreeLists(): (top: seq<int>)
      ensures top == DefaultTopThree
    {
      DefaultTopThree
    }

    /** `getColisoes`. */
    function Collisions(): (c: int)
      reads this, slots
      requires Valid()
      ensures c >= 0
    {
      collisions
    }

    /** `getGaps`, over the slots that hold a record. */
    method Gaps() returns (g: seq<int>)
      requires Valid()
      ensures g == Statistics.GapSummary(Occupancy(slots[..]))
      ensures |g| == 3 && 0 <= g[0] <= g[2] <= g[1]
    {
      var a := slots;
      var occ := seq(a.Length, j requires 0 <= j < a.Length reads a => a[j] != Empty && a[j] != Deleted);
      assert occ == Occupancy(slots[..]);
      g := Statistics.Gaps(occ);
      Statistics.GapSummaryBounds(occ);
    }
  }

  /** While any slot is free, a linear-probing insert never drops the record:
      it either stores it or finds it already there. */
  lemma FreeSlotMeansNoRejection(s: seq<Slot>, depth: seq<nat>, r: Record)
    requires Layout(Linear, s, depth) && |s| >= 1
    requires |Stored(s)| < |s|
    ensures Decide(s, r, Path(Linear, r.code, |s|)) != Rejected
  {
    if forall j :: 0 <= j < |s| ==> s[j].Occupied? {
      LayoutNoDuplicates(Linear, s, depth);
      FullTableHoldsCapacity(s);
    }
    LinearRejectsOnlyWhenFull(s, r);
  }

  /** A table whose every slot holds a record, with no record twice, holds
      exactly `capacity` records. */
  lemma {:induction false} FullTableHoldsCapacity(s: seq<Slot>)
    requires NoDuplicates(s)
    requires forall j :: 0 <= j < |s| ==> s[j].Occupied?
    ensures |Stored(s)| == |s|
    decreases |s|
  {
    if s != [] {
      var p := s[..|s| - 1];
      FullTableHoldsCapacity(p);
      StoredMembership(p, s[|s| - 1].rec);
    }
  }
}
