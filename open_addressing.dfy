/** What the three open-addressing tables have in common: an array of slots, a
    probe path of `capacity` indices per code, and an insert that walks the path
    until it meets a free slot or an equal record. The tables differ only in
    their hashes and probe sequences (`Strategy`).

    `Stop`, `Decide` and `Layout` are the specification that each table's
    `Insert` and `Search` loops are proved against; the lemmas below say what
    they mean. */
module OpenAddressing {
  import opened HashFunctions
  import opened ProbeSequences
  import opened Records
  import opened HashTable

  /** A slot of `tabela`: `null`, the `DELETED` sentinel, or a record. */
  datatype Slot = Empty | Deleted | Occupied(rec: Record)

  datatype Strategy = Linear | Quadratic | Double

  /** Smallest capacity at which the hashes do not divide by zero: `% length`
      everywhere, and `% (length - 1)` in the second hash of double hashing. */
  function MinCapacity(st: Strategy): nat
  {
    if st == Double then 2 else 1
  }

  /** The first index probed. */
  function PrimaryIndex(st: Strategy, code: string, m: int): (i: int)
    requires m >= 1
    ensures 0 <= i < m
  {
    match st
    case Linear => LinearHash(code) % m
    case Quadratic => QuadraticHash(code) % m
    case Double => DigitSum(code) % m
  }

  /** `hash2` of double hashing: the step between two probes. */
  function StepSize(code: string, m: int): (step: int)
    requires m >= 2
    ensures 1 <= step <= m - 1
  {
    1 + StepHash(code) % (m - 1)
  }

  /** The index probed at attempt `k`. */
  function Probe(st: Strategy, code: string, k: nat, m: int): (i: int)
    requires m >= MinCapacity(st)
    ensures 0 <= i < m
  {
    match st
    case Linear => LinearProbe(PrimaryIndex(st, code, m), k, m)
    case Quadratic => QuadraticProbe(PrimaryIndex(st, code, m), k, m)
    case Double => DoubleProbe(PrimaryIndex(st, code, m), StepSize(code, m), k, m)
  }

  /** The `capacity` indices an insert may probe, in order. */
  function Path(st: Strategy, code: string, m: int): (path: seq<int>)
    requires m >= MinCapacity(st)
    ensures |path| == m
    ensures InRange(path, m)
  {
    seq(m, (k: int) requires 0 <= k => Probe(st, code, k, m))
  }

  predicate InRange(path: seq<int>, m: int)
  {
    forall k :: 0 <= k < |path| ==> 0 <= path[k] < m
  }

  /** A slot the insert loop passes over, counting a collision: it holds a
      record other than `r`. */
  predicate Blocks(x: Slot, r: Record)
  {
    x.Occupied? && x.rec != r
  }

  /** The attempt at which the probe loop leaves `path`, starting from attempt
      `t`: the first slot that is free or holds `r`, or `|path|` when every
      slot blocks. */
  function Stop(s: seq<Slot>, r: Record, path: seq<int>, t: nat): (stop: nat)
    requires InRange(path, |s|) && t <= |path|
    ensures t <= stop <= |path|
    decreases |path| - t
  {
    if t == |path| || !Blocks(s[path[t]], r) then t else Stop(s, r, path, t + 1)
  }

  /** What an insert of `r` along `path` does. */
  function Decide(s: seq<Slot>, r: Record, path: seq<int>): (o: Outcome)
    requires InRange(path, |s|)
    ensures o == Rejected <==> forall k :: 0 <= k < |path| ==> Blocks(s[path[k]], r)
    ensures o == AlreadyPresent ==> exists k :: 0 <= k < |path| && s[path[k]] == Occupied(r)
    ensures o == Inserted ==> exists k :: 0 <= k < |path| && !s[path[k]].Occupied?
  {
    StopScan(s, r, path, 0);
    var t := Stop(s, r, path, 0);
    if t == |path| then Rejected
    else if s[path[t]].Occupied? then AlreadyPresent
    else Inserted
  }

  /** The number of attempts an insert of `r` makes before it leaves the
      probe loop: the collisions it adds. */
  function Attempts(st: Strategy, s: seq<Slot>, r: Record): (n: nat)
    requires |s| >= MinCapacity(st)
    ensures n <= |s|
    ensures forall k :: 0 <= k < n ==> Blocks(s[Probe(st, r.code, k, |s|)], r)
    ensures n < |s| ==> !Blocks(s[Probe(st, r.code, n, |s|)], r)
  {
    var path := Path(st, r.code, |s|);
    StopScan(s, r, path, 0);
    assert forall k :: 0 <= k < |path| ==> path[k] == Probe(st, r.code, k, |s|);
    Stop(s, r, path, 0)
  }

  /** What an insert of `r` into slots `s` does. */
  function InsertOutcome(st: Strategy, s: seq<Slot>, r: Record): (o: Outcome)
    requires |s| >= MinCapacity(st)
    ensures o == Rejected <==> Attempts(st, s, r) == |s|
  {
    Decide(s, r, Path(st, r.code, |s|))
  }

  /** The slots after an insert of `r`: the slot the probe loop stopped at
      receives `r` when it is free; otherwise nothing changes. */
  function AfterInsert(st: Strategy, s: seq<Slot>, r: Record): (s': seq<Slot>)
    requires |s| >= MinCapacity(st)
    ensures |s'| == |s|
    ensures InsertOutcome(st, s, r) == Inserted ==>
              var j := Probe(st, r.code, Attempts(st, s, r), |s|);
              !s[j].Occupied? && s' == s[j := Occupied(r)]
    ensures InsertOutcome(st, s, r) != Inserted ==> s' == s
  {
    var path := Path(st, r.code, |s|);
    if Decide(s, r, path) == Inserted then s[path[Stop(s, r, path, 0)] := Occupied(r)] else s
  }

  /** `Stop` is the first non-blocking attempt. */
  lemma {:induction false} StopScan(s: seq<Slot>, r: Record, path: seq<int>, t: nat)
    requires InRange(path, |s|) && t <= |path|
    ensures forall k :: t <= k < Stop(s, r, path, t) ==> Blocks(s[path[k]], r)
    ensures Stop(s, r, path, t) < |path| ==> !Blocks(s[path[Stop(s, r, path, t)]], r)
    decreases |path| - t
  {
    if t < |path| && Blocks(s[path[t]], r) {
      StopScan(s, r, path, t + 1);
    }
  }

  /** Conversely, an attempt `n` with only blocking slots before it and a
      non-blocking one (or the end of the path) at it is `Stop`. */
  lemma {:induction false} StopIs(s: seq<Slot>, r: Record, path: seq<int>, t: nat, n: nat)
    requires InRange(path, |s|) && t <= n <= |path|
    requires forall k :: t <= k < n ==> Blocks(s[path[k]], r)
    requires n == |path| || !Blocks(s[path[n]], r)
    ensures Stop(s, r, path, t) == n
    decreases n - t
  {
    if t < n {
      StopIs(s, r, path, t + 1, n);
    }
  }

  /** `DELETED` is never written by any operation. */
  predicate NoDeleted(s: seq<Slot>)
  {
    forall j :: 0 <= j < |s| ==> s[j] != Deleted
  }

  predicate NoDuplicates(s: seq<Slot>)
  {
    forall i, j :: 0 <= i < j < |s| && s[i].Occupied? && s[j].Occupied? ==> s[i].rec != s[j].rec
  }

  /** Record `x` was stored in slot `j` at attempt `d` of `path`: every slot
      probed before it holds another record. */
  predicate Placed(s: seq<Slot>, x: Record, j: int, d: nat, path: seq<int>)
  {
    d < |path| && path[d] == j &&
    forall k :: 0 <= k < d ==> 0 <= path[k] < |s| && Blocks(s[path[k]], x)
  }

  /** The invariant the inserts keep: no sentinel, and each record sits at
      attempt `depth[j]` of its own path with every earlier slot of that path
      holding another record, so that a search along the path meets it
      before any free slot (and no record is stored twice,
      `LayoutNoDuplicates`). */
  ghost predicate Layout(st: Strategy, s: seq<Slot>, depth: seq<nat>)
  {
    |depth| == |s| && NoDeleted(s) &&
    (|s| >= MinCapacity(st) ==>
       forall j {:trigger depth[j]} :: 0 <= j < |s| && s[j].Occupied? ==>
         Placed(s, s[j].rec, j, depth[j], Path(st, s[j].rec.code, |s|)))
  }

  /** No record is stored twice: the later copy's path would pass the
      earlier one, which would then not be another record. */
  lemma LayoutNoDuplicates(st: Strategy, s: seq<Slot>, depth: seq<nat>)
    requires Layout(st, s, depth)
    ensures NoDuplicates(s)
  {
    forall i, j | 0 <= i < j < |s| && s[i].Occupied? && s[j].Occupied?
      ensures s[i].rec != s[j].rec
    {
      var x, y := s[j].rec, s[i].rec;
      var px, py := Path(st, x.code, |s|), Path(st, y.code, |s|);
      assert Placed(s, x, j, depth[j], px);
      assert Placed(s, y, i, depth[i], py);
    }
  }

  /** The invariant of the three table classes: the layout, and the size
      counter equal to the number of records stored. */
  ghost predicate TableInv(st: Strategy, s: seq<Slot>, depth: seq<nat>, size: int)
  {
    Layout(st, s, depth) && size == |Stored(s)|
  }

  /** The records in the slots. */
  function Stored(s: seq<Slot>): set<Record>
    decreases |s|
  {
    if s == [] then {}
    else Stored(s[..|s| - 1]) + (if s[|s| - 1].Occupied? then {s[|s| - 1].rec} else {})
  }

  /** The occupancy vector the gap statistic scans. */
  function Occupancy(s: seq<Slot>): (occ: seq<bool>)
    ensures |occ| == |s|
    ensures forall j :: 0 <= j < |s| ==> (occ[j] <==> s[j].Occupied?)
  {
    seq(|s|, j requires 0 <= j < |s| => s[j].Occupied?)
  }

  lemma {:induction false} StoredMembership(s: seq<Slot>, r: Record)
    ensures r in Stored(s) <==> exists j :: 0 <= j < |s| && s[j] == Occupied(r)
    decreases |s|
  {
    if s != [] {
      var p := s[..|s| - 1];
      StoredMembership(p, r);
      if r in Stored(p) {
        var j :| 0 <= j < |p| && p[j] == Occupied(r);
        assert s[j] == Occupied(r);
      }
      if exists j :: 0 <= j < |s| && s[j] == Occupied(r) {
        var j :| 0 <= j < |s| && s[j] == Occupied(r);
        if j < |p| {
          assert p[j] == Occupied(r);
        }
      }
    }
  }

  /** A table holds at most as many records as it has slots. */
  lemma {:induction false} StoredBound(s: seq<Slot>)
    ensures |Stored(s)| <= |s|
    decreases |s|
  {
    if s != [] {
      StoredBound(s[..|s| - 1]);
    }
  }

  /** Filling a free slot with `r` adds `r` and nothing else. */
  lemma StoredFill(s: seq<Slot>, j: int, r: Record)
    requires 0 <= j < |s| && !s[j].Occupied?
    ensures Stored(s[j := Occupied(r)]) == Stored(s) + {r}
  {
    var s' := s[j := Occupied(r)];
    forall x
      ensures x in Stored(s') <==> x in Stored(s) + {r}
    {
      StoredMembership(s, x);
      StoredMembership(s', x);
      if x in Stored(s) {
        var i :| 0 <= i < |s| && s[i] == Occupied(x);
        assert s'[i] == Occupied(x);
      }
      if x == r {
        assert s'[j] == Occupied(r);
      }
      if x in Stored(s') && x != r {
        var i :| 0 <= i < |s'| && s'[i] == Occupied(x);
        assert s[i] == Occupied(x);
      }
    }
  }

  /** An empty table: every slot `null`. */
  lemma StoredEmpty(n: nat)
    ensures Stored(seq(n, _ => Empty)) == {}
    ensures NoDeleted(seq(n, _ => Empty))
  {
    var s: seq<Slot> := seq(n, _ => Empty);
    if x :| x in Stored(s) {
      StoredMembership(s, x);
    }
  }

  /** Placement only looks at occupied slots, so it survives any change that
      only fills free slots. */
  lemma PlacedMonotone(s: seq<Slot>, s': seq<Slot>, x: Record, j: int, d: nat, path: seq<int>)
    requires |s| == |s'|
    requires forall i :: 0 <= i < |s| && s[i].Occupied? ==> s'[i] == s[i]
    requires Placed(s, x, j, d, path)
    ensures Placed(s', x, j, d, path)
  {
  }

  /** A stored record is met on its own path before any free slot. */
  lemma StopOnStored(st: Strategy, s: seq<Slot>, depth: seq<nat>, r: Record)
    requires Layout(st, s, depth) && |s| >= MinCapacity(st)
    requires r in Stored(s)
    ensures var path := Path(st, r.code, |s|);
            var t := Stop(s, r, path, 0);
            t < |path| && s[path[t]] == Occupied(r)
  {
    var path := Path(st, r.code, |s|);
    var t := Stop(s, r, path, 0);
    StopScan(s, r, path, 0);
    StoredMembership(s, r);
    var j :| 0 <= j < |s| && s[j] == Occupied(r);
    var d := depth[j];
    assert Placed(s, r, j, d, path);
    assert !Blocks(s[path[d]], r);
    assert t <= d;
    assert s[path[t]].Occupied?;
  }

  /** What `Decide` means on a table that keeps the layout: the insert finds
      `r` exactly when it is stored; it rejects exactly when all `capacity`
      slots of the path hold other records; otherwise it stops at a `null`
      slot. */
  lemma DecideMeaning(st: Strategy, s: seq<Slot>, depth: seq<nat>, r: Record)
    requires Layout(st, s, depth) && |s| >= MinCapacity(st)
    ensures var path := Path(st, r.code, |s|);
            var t := Stop(s, r, path, 0);
            && (Decide(s, r, path) == AlreadyPresent <==> r in Stored(s))
            && (Decide(s, r, path) == AlreadyPresent ==> s[path[t]] == Occupied(r))
            && (Decide(s, r, path) == Inserted ==> s[path[t]] == Empty)
            && (Decide(s, r, path) == Rejected <==> forall k :: 0 <= k < |path| ==> Blocks(s[path[k]], r))
  {
    var path := Path(st, r.code, |s|);
    var t := Stop(s, r, path, 0);
    StopScan(s, r, path, 0);
    StoredMembership(s, r);
    if r in Stored(s) {
      StopOnStored(st, s, depth, r);
    }
    assert t < |path| && s[path[t]].Occupied? ==> s[path[t]] == Occupied(r);
    if forall k :: 0 <= k < |path| ==> Blocks(s[path[k]], r) {
      StopIs(s, r, path, 0, |path|);
    }
  }

  /** Filling the free slot the insert stops at keeps the layout: the new
      record sits at attempt `Stop` of its path, after occupied slots only. */
  lemma InsertKeepsLayout(st: Strategy, s: seq<Slot>, depth: seq<nat>, r: Record)
    requires Layout(st, s, depth) && |s| >= MinCapacity(st)
    requires Decide(s, r, Path(st, r.code, |s|)) == Inserted
    ensures var path := Path(st, r.code, |s|);
            var t := Stop(s, r, path, 0);
            && r !in Stored(s)
            && Layout(st, s[path[t] := Occupied(r)], depth[path[t] := t])
            && Stored(s[path[t] := Occupied(r)]) == Stored(s) + {r}
  {
    var path := Path(st, r.code, |s|);
    var t := Stop(s, r, path, 0);
    var j0 := path[t];
    var s', depth' := s[j0 := Occupied(r)], depth[j0 := t];
    DecideMeaning(st, s, depth, r);
    StopScan(s, r, path, 0);
    StoredMembership(s, r);
    StoredFill(s, j0, r);
    forall j | 0 <= j < |s'| && s'[j].Occupied?
      ensures Placed(s', s'[j].rec, j, depth'[j], Path(st, s'[j].rec.code, |s'|))
    {
      if j == j0 {
        forall k | 0 <= k < t
          ensures Blocks(s'[path[k]], r)
        {
          assert Blocks(s[path[k]], r);
        }
      } else {
        PlacedMonotone(s, s', s[j].rec, j, depth[j], Path(st, s[j].rec.code, |s|));
      }
    }
  }

  /** An insert reports the record present exactly when it is stored, and
      drops it exactly when all `capacity` probed slots hold other records,
      after `capacity` collisions. */
  lemma InsertFindsStored(st: Strategy, s: seq<Slot>, depth: seq<nat>, r: Record)
    requires Layout(st, s, depth) && |s| >= MinCapacity(st)
    ensures InsertOutcome(st, s, r) == AlreadyPresent <==> r in Stored(s)
    ensures InsertOutcome(st, s, r) == Rejected <==>
              forall k :: 0 <= k < |s| ==> Blocks(s[Path(st, r.code, |s|)[k]], r)
    ensures InsertOutcome(st, s, r) == Rejected ==> Attempts(st, s, r) == |s|
  {
    DecideMeaning(st, s, depth, r);
  }

  /** An insert that stores the record fills one `null` slot and changes no
      other; any other insert changes no slot. */
  lemma InsertFillsOneSlot(st: Strategy, s: seq<Slot>, depth: seq<nat>, r: Record)
    requires Layout(st, s, depth) && |s| >= MinCapacity(st)
    ensures InsertOutcome(st, s, r) == Inserted ==>
              exists j :: 0 <= j < |s| && s[j] == Empty && AfterInsert(st, s, r) == s[j := Occupied(r)]
    ensures InsertOutcome(st, s, r) != Inserted ==> AfterInsert(st, s, r) == s
  {
    var path := Path(st, r.code, |s|);
    DecideMeaning(st, s, depth, r);
    if InsertOutcome(st, s, r) == Inserted {
      var j := path[Stop(s, r, path, 0)];
      assert s[j] == Empty && AfterInsert(st, s, r) == s[j := Occupied(r)];
    }
  }

  /** The records stored after an insert: `r` is added unless it was dropped,
      and the count grows by one exactly when a slot was filled. */
  lemma InsertAddsRecord(st: Strategy, s: seq<Slot>, depth: seq<nat>, r: Record)
    requires Layout(st, s, depth) && |s| >= MinCapacity(st)
    ensures Stored(AfterInsert(st, s, r)) ==
              if InsertOutcome(st, s, r) == Rejected then Stored(s) else Stored(s) + {r}
    ensures |Stored(AfterInsert(st, s, r))| ==
              |Stored(s)| + if InsertOutcome(st, s, r) == Inserted then 1 else 0
  {
    if InsertOutcome(st, s, r) == Inserted {
      InsertedAddsRecord(st, s, depth, r);
    } else {
      UnchangedByInsert(st, s, depth, r);
    }
  }

  /** The other cases of `InsertAddsRecord`: the slots stay as they were, and
      a duplicate is already stored. */
  lemma UnchangedByInsert(st: Strategy, s: seq<Slot>, depth: seq<nat>, r: Record)
    requires Layout(st, s, depth) && |s| >= MinCapacity(st)
    requires InsertOutcome(st, s, r) != Inserted
    ensures AfterInsert(st, s, r) == s
    ensures InsertOutcome(st, s, r) == AlreadyPresent ==> Stored(s) + {r} == Stored(s)
  {
    DecideMeaning(st, s, depth, r);
    if InsertOutcome(st, s, r) == AlreadyPresent {
      assert r in Stored(s);
    }
  }

  /** The `Inserted` case of `InsertAddsRecord`. */
  lemma InsertedAddsRecord(st: Strategy, s: seq<Slot>, depth: seq<nat>, r: Record)
    requires Layout(st, s, depth) && |s| >= MinCapacity(st)
    requires InsertOutcome(st, s, r) == Inserted
    ensures r !in Stored(s) && Stored(AfterInsert(st, s, r)) == Stored(s) + {r}
    ensures |Stored(AfterInsert(st, s, r))| == |Stored(s)| + 1
  {
    var path := Path(st, r.code, |s|);
    InsertKeepsLayout(st, s, depth, r);
    assert AfterInsert(st, s, r) == s[path[Stop(s, r, path, 0)] := Occupied(r)];
  }

  /** Every insert keeps the layout invariant. */
  lemma InsertKeepsInvariant(st: Strategy, s: seq<Slot>, depth: seq<nat>, r: Record)
    requires Layout(st, s, depth) && |s| >= MinCapacity(st)
    ensures exists depth' :: Layout(st, AfterInsert(st, s, r), depth')
  {
    var path := Path(st, r.code, |s|);
    var t := Stop(s, r, path, 0);
    if InsertOutcome(st, s, r) == Inserted {
      InsertKeepsLayout(st, s, depth, r);
      assert Layout(st, AfterInsert(st, s, r), depth[path[t] := t]);
    } else {
      assert Layout(st, AfterInsert(st, s, r), depth);
    }
  }

  /** The probe loop stops at an occupied slot: it holds `r`, and the insert
      reports it present. */
  lemma FoundAt(st: Strategy, s: seq<Slot>, r: Record, t: nat)
    requires |s| >= MinCapacity(st) && t < |s|
    requires var path := Path(st, r.code, |s|);
             Stop(s, r, path, 0) == t && s[path[t]].Occupied?
    ensures var path := Path(st, r.code, |s|);
            s[path[t]] == Occupied(r) && Decide(s, r, path) == AlreadyPresent
    ensures r in Stored(s)
  {
    var path := Path(st, r.code, |s|);
    StopScan(s, r, path, 0);
    StoredMembership(s, r);
  }

  /** The probe loop stops at a free slot: the insert stores `r` there,
      keeping the invariant and adding exactly one record. */
  lemma FreeAt(st: Strategy, s: seq<Slot>, depth: seq<nat>, size: int, r: Record, t: nat)
    requires TableInv(st, s, depth, size) && |s| >= MinCapacity(st) && t < |s|
    requires var path := Path(st, r.code, |s|);
             Stop(s, r, path, 0) == t && !s[path[t]].Occupied?
    ensures var path := Path(st, r.code, |s|);
            var s' := s[path[t] := Occupied(r)];
            && Decide(s, r, path) == Inserted
            && r !in Stored(s)
            && TableInv(st, s', depth[path[t] := t], size + 1)
            && Stored(s') == Stored(s) + {r}
  {
    InsertKeepsLayout(st, s, depth, r);
  }

  /** Where the probe loop of `inserir` stops decides the whole insert: a
      stop at the slot holding `r`, at a free slot, or after `capacity`
      attempts. */
  lemma LocatedInsert(st: Strategy, s: seq<Slot>, depth: seq<nat>, size: int, r: Record, t: nat)
    requires TableInv(st, s, depth, size) && |s| >= MinCapacity(st)
    requires t == Stop(s, r, Path(st, r.code, |s|), 0)
    ensures Attempts(st, s, r) == t
    ensures t < |s| && s[Path(st, r.code, |s|)[t]].Occupied? ==>
              && InsertOutcome(st, s, r) == AlreadyPresent
              && AfterInsert(st, s, r) == s
              && r in Stored(s)
    ensures t < |s| && !s[Path(st, r.code, |s|)[t]].Occupied? ==>
              var j := Path(st, r.code, |s|)[t];
              && InsertOutcome(st, s, r) == Inserted
              && AfterInsert(st, s, r) == s[j := Occupied(r)]
              && r !in Stored(s)
              && TableInv(st, s[j := Occupied(r)], depth[j := t], size + 1)
              && Stored(s[j := Occupied(r)]) == Stored(s) + {r}
    ensures t == |s| ==>
              && InsertOutcome(st, s, r) == Rejected
              && AfterInsert(st, s, r) == s
              && r !in Stored(s)
  {
    if t == |s| {
      PathFull(st, s, depth, r);
    } else if s[Path(st, r.code, |s|)[t]].Occupied? {
      FoundAt(st, s, r, t);
    } else {
      FreeAt(st, s, depth, size, r, t);
    }
  }

  /** The probe loop used up every attempt: the insert drops `r`, which is
      not in the table. */
  lemma PathFull(st: Strategy, s: seq<Slot>, depth: seq<nat>, r: Record)
    requires Layout(st, s, depth) && |s| >= MinCapacity(st)
    requires Stop(s, r, Path(st, r.code, |s|), 0) == |s|
    ensures Decide(s, r, Path(st, r.code, |s|)) == Rejected
    ensures r !in Stored(s)
  {
    DecideMeaning(st, s, depth, r);
  }

  /** Linear probing visits every slot: attempt `(j - h) mod m` probes `j`. */
  lemma LinearPathCovers(code: string, m: int, j: int)
    requires m >= 1 && 0 <= j < m
    ensures j in Path(Linear, code, m)
  {
    var h := PrimaryIndex(Linear, code, m);
    var k := (j - h) % m;
    var q := (j - h) / m;
    assert j - h == q * m + k;
    assert h + k == j + (-q) * m;
    ModAddMultiple(j, -q, m);
    ModOfSmall(j, m);
    assert Path(Linear, code, m)[k] == j;
  }

  /** Linear probing rejects a record only when the table is full: while any
      slot is free the insert stores the record or finds it. */
  lemma LinearRejectsOnlyWhenFull(s: seq<Slot>, r: Record)
    requires |s| >= 1
    requires exists j :: 0 <= j < |s| && !s[j].Occupied?
    ensures Decide(s, r, Path(Linear, r.code, |s|)) != Rejected
  {
    var path := Path(Linear, r.code, |s|);
    var j :| 0 <= j < |s| && !s[j].Occupied?;
    LinearPathCovers(r.code, |s|, j);
    var k :| 0 <= k < |path| && path[k] == j;
    StopScan(s, r, path, 0);
    assert !Blocks(s[path[k]], r);
  }

  /** With capacity 10 quadratic probing rejects a record as soon as the three
      slots its path reaches hold other records, however many of the other
      seven are free. */
  lemma QuadraticRejectsWithFreeSlots(s: seq<Slot>, r: Record, m: int)
    requires m == 10 && |s| == m
    requires var h := PrimaryIndex(Quadratic, r.code, m);
             Blocks(s[h], r) && Blocks(s[(h + 2) % m], r) && Blocks(s[(h + 8) % m], r)
    ensures Decide(s, r, Path(Quadratic, r.code, m)) == Rejected
    ensures Stop(s, r, Path(Quadratic, r.code, m), 0) == m
  {
    var path := Path(Quadratic, r.code, m);
    forall k | 0 <= k < m
      ensures Blocks(s[path[k]], r)
    {
      QuadraticTenBlocks(s, r, k);
    }
    StopIs(s, r, path, 0, m);
  }

  lemma QuadraticTenBlocks(s: seq<Slot>, r: Record, k: nat)
    requires |s| == 10 && k < 10
    requires var h := PrimaryIndex(Quadratic, r.code, 10);
             Blocks(s[h], r) && Blocks(s[(h + 2) % 10], r) && Blocks(s[(h + 8) % 10], r)
    ensures Blocks(s[Path(Quadratic, r.code, 10)[k]], r)
  {
    var h := PrimaryIndex(Quadratic, r.code, 10);
    QuadraticCapacityTen(h);
    var i := QuadraticProbe(h, k, 10);
    assert i in {h, (h + 2) % 10, (h + 8) % 10};
    assert Path(Quadratic, r.code, 10)[k] == i;
  }
}
