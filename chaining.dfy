/** The separate-chaining table (autoria/ChainingHashTable.java; the class in
    src/ChainingHashTable.java is the same code with comments): an array of
    buckets, each an unbounded list of records, indexed by a Horner hash with
    multiplier 37. */
module Chaining {
  import opened HashFunctions
  import opened Records
  import opened HashTable
  import Statistics

  /** The bucket a code hashes to: the masked Horner-37 value modulo the
      number of buckets. */
  function BucketOf(code: string, m: int): (b: int)
    requires m >= 1
    ensures 0 <= b < m
  {
    ChainHash(code) % m
  }

  /** `funcaoHash`, as its loop computes it. */
  method BucketIndex(code: string, m: int) returns (b: int)
    requires m >= 1
    ensures b == BucketOf(code, m)
  {
    var hash := MaskedHornerLoop(code, 37, 0);
    b := hash % m;
  }

  // ---- The bucket array as a value ----

  /** The total number of records in the buckets. */
  function TotalLength(t: seq<seq<Record>>): nat
    decreases |t|
  {
    if t == [] then 0 else TotalLength(t[..|t| - 1]) + |t[|t| - 1]|
  }

  /** The records in the buckets. */
  function Contents(t: seq<seq<Record>>): set<Record>
    decreases |t|
  {
    if t == [] then {} else Contents(t[..|t| - 1]) + Members(t[|t| - 1])
  }

  function Members(l: seq<Record>): set<Record>
  {
    set x | x in l
  }

  predicate NoRepeats(l: seq<Record>)
  {
    forall i, j :: 0 <= i < j < |l| ==> l[i] != l[j]
  }

  /** Every record sits in the bucket its code hashes to among `m` buckets. */
  predicate Homed(t: seq<seq<Record>>, m: int)
  {
    m >= 1 ==> forall b, k :: 0 <= b < |t| && 0 <= k < |t[b]| ==> BucketOf(t[b][k].code, m) == b
  }

  /** The table invariant: records in their hash bucket, no bucket holding a
      record twice. */
  predicate WellFormed(t: seq<seq<Record>>)
  {
    Homed(t, |t|) && forall b :: 0 <= b < |t| ==> NoRepeats(t[b])
  }

  /** The lengths of the non-empty buckets, in bucket order: what
      `getTresMaioresListas` adds to its queue. */
  function NonEmptyLengths(t: seq<seq<Record>>): seq<int>
    decreases |t|
  {
    if t == [] then []
    else NonEmptyLengths(t[..|t| - 1]) + (if t[|t| - 1] != [] then [|t[|t| - 1]|] else [])
  }

  /** The occupancy vector `getGaps` scans: which buckets are non-empty. */
  function BucketOccupancy(t: seq<seq<Record>>): (occ: seq<bool>)
    ensures |occ| == |t|
    ensures forall b :: 0 <= b < |t| ==> (occ[b] <==> t[b] != [])
  {
    seq(|t|, b requires 0 <= b < |t| => t[b] != [])
  }

  lemma {:induction false} ContentsMembership(t: seq<seq<Record>>, r: Record)
    ensures r in Contents(t) <==> exists b :: 0 <= b < |t| && r in t[b]
    decreases |t|
  {
    if t != [] {
      var p := t[..|t| - 1];
      ContentsMembership(p, r);
      if r in Contents(p) {
        var b :| 0 <= b < |p| && r in p[b];
        assert r in t[b];
      }
      if exists b :: 0 <= b < |t| && r in t[b] {
        var b :| 0 <= b < |t| && r in t[b];
        if b < |p| {
          assert r in p[b];
        }
      }
    }
  }

  /** In a well-formed table a record is stored exactly when it is in the
      bucket its code hashes to. */
  lemma ContentsLookup(t: seq<seq<Record>>, r: Record)
    requires |t| >= 1 && WellFormed(t)
    ensures r in Contents(t) <==> r in t[BucketOf(r.code, |t|)]
  {
    ContentsMembership(t, r);
    if r in Contents(t) {
      var b :| 0 <= b < |t| && r in t[b];
      var k :| 0 <= k < |t[b]| && t[b][k] == r;
    }
  }

  /** Replacing one bucket changes the total by the difference in length. */
  lemma {:induction false} TotalLengthUpdate(t: seq<seq<Record>>, b: int, l: seq<Record>)
    requires 0 <= b < |t|
    ensures TotalLength(t[b := l]) == TotalLength(t) - |t[b]| + |l|
    decreases |t|
  {
    var t' := t[b := l];
    var p, p' := t[..|t| - 1], t'[..|t| - 1];
    if b < |t| - 1 {
      TotalLengthUpdate(p, b, l);
      assert p' == p[b := l];
    } else {
      assert p' == p;
    }
  }

  /** Appending `r` to one bucket adds `r` to the contents. */
  lemma ContentsAppend(t: seq<seq<Record>>, b: int, r: Record)
    requires 0 <= b < |t|
    ensures Contents(t[b := t[b] + [r]]) == Contents(t) + {r}
  {
    var t' := t[b := t[b] + [r]];
    forall x
      ensures x in Contents(t') <==> x in Contents(t) + {r}
    {
      ContentsMembership(t, x);
      ContentsMembership(t', x);
      if x in Contents(t) {
        var c :| 0 <= c < |t| && x in t[c];
        assert x in t'[c];
      }
      if x == r {
        assert r in t'[b];
      }
      if x in Contents(t') && x != r {
        var c :| 0 <= c < |t'| && x in t'[c];
        assert x in t[c];
      }
    }
  }

  /** All buckets empty: nothing stored. */
  lemma EmptyBuckets(n: nat)
    ensures var t: seq<seq<Record>> := seq(n, _ => []);
            Contents(t) == {} && TotalLength(t) == 0 && WellFormed(t)
    decreases n
  {
    var t: seq<seq<Record>> := seq(n, _ => []);
    if n > 0 {
      EmptyBuckets(n - 1);
      assert t[..n - 1] == seq(n - 1, _ => []);
    }
  }

  /** A list without repeats has as many distinct elements as entries. */
  lemma {:induction false} NoRepeatsCount(l: seq<Record>)
    requires NoRepeats(l)
    ensures |Members(l)| == |l|
    decreases |l|
  {
    if l != [] {
      var p := l[..|l| - 1];
      NoRepeatsCount(p);
      assert Members(l) == Members(p) + {l[|l| - 1]};
      assert l[|l| - 1] !in Members(p);
    }
  }

  /** In a well-formed table the number of records stored is the total
      bucket length: no record is counted twice. */
  lemma {:induction false} ContentsCount(t: seq<seq<Record>>, m: int)
    requires m >= 1 && Homed(t, m)
    requires forall b :: 0 <= b < |t| ==> NoRepeats(t[b])
    ensures |Contents(t)| == TotalLength(t)
    decreases |t|
  {
    if t != [] {
      var p, last := t[..|t| - 1], t[|t| - 1];
      assert Homed(p, m);
      ContentsCount(p, m);
      NoRepeatsCount(last);
      forall x | x in Contents(p)
        ensures BucketOf(x.code, m) < |p|
      {
        ContentsHomes(p, m, x);
      }
      forall x | x in Members(last)
        ensures BucketOf(x.code, m) == |p|
      {
        var j :| 0 <= j < |last| && last[j] == x;
        assert t[|p|][j] == x;
      }
      assert Contents(p) !! Members(last);
    }
  }

  /** A stored record sits in a bucket below the number of buckets. */
  lemma ContentsHomes(t: seq<seq<Record>>, m: int, x: Record)
    requires m >= 1 && Homed(t, m) && x in Contents(t)
    ensures BucketOf(x.code, m) < |t|
  {
    ContentsMembership(t, x);
    var b :| 0 <= b < |t| && x in t[b];
    var k :| 0 <= k < |t[b]| && t[b][k] == x;
  }

  /** Appending a record absent from its home bucket keeps the table
      well-formed. */
  lemma AppendKeepsWellFormed(t: seq<seq<Record>>, r: Record)
    requires |t| >= 1 && WellFormed(t)
    requires r !in t[BucketOf(r.code, |t|)]
    ensures WellFormed(t[BucketOf(r.code, |t|) := t[BucketOf(r.code, |t|)] + [r]])
  {
    var b := BucketOf(r.code, |t|);
    var t': seq<seq<Record>> := t[b := t[b] + [r]];
    forall c: int, k: int | 0 <= c < |t'| && 0 <= k < |t'[c]|
      ensures BucketOf(t'[c][k].code, |t'|) == c
    {
      if c != b || k < |t[b]| {
        assert t'[c][k] == t[c][k];
      }
    }
    forall c | 0 <= c < |t'|
      ensures NoRepeats(t'[c])
    {
      if c == b {
        forall i, j | 0 <= i < j < |t'[c]|
          ensures t'[c][i] != t'[c][j]
        {
          if j == |t[b]| {
            assert t'[c][i] == t[b][i];
          }
        }
      }
    }
  }

  class ChainingTable {
    var buckets: array<seq<Record>>
    var collisions: int
    var size: int

    ghost predicate Valid()
      reads this, buckets
    {
      buckets.Length <= MaxInt && collisions >= 0 &&
      WellFormed(buckets[..]) && size == TotalLength(buckets[..])
    }

    ghost function Elements(): set<Record>
      reads this, buckets
    {
      Contents(buckets[..])
    }

    /** `new ChainingHashTable(capacidade)`: `capacity` empty buckets. */
    constructor (capacity: nat)
      requires capacity <= MaxInt
      ensures Valid() && fresh(buckets)
      ensures buckets[..] == seq(capacity, _ => [])
      ensures collisions == 0 && size == 0 && Elements() == {}
    {
      var a := new seq<Record>[capacity];
      for i := 0 to capacity
        invariant forall j :: 0 <= j < i ==> a[j] == []
      {
        a[i] := [];
      }
      buckets := a;
      collisions, size := 0, 0;
      new;
      assert buckets[..] == seq(capacity, _ => []);
      EmptyBuckets(capacity);
    }

    /** `inserir`: counts the records already in the bucket as collisions,
        duplicate or not, and appends the record when it is absent. The
        outcome is never `Rejected`. */
    method Insert(r: Record) returns (outcome: Outcome)
      requires Valid() && buckets.Length >= 1
      modifies this, buckets
      ensures Valid() && buckets == old(buckets)
      ensures var b := BucketOf(r.code, buckets.Length);
              && collisions == old(collisions) + |old(buckets[b])|
              && outcome == (if r in old(buckets[b]) then AlreadyPresent else Inserted)
              && buckets[..] == old(buckets[..])[b := if r in old(buckets[b]) then old(buckets[b]) else old(buckets[b]) + [r]]
      ensures size == old(size) + if outcome == Inserted then 1 else 0
      ensures Elements() == old(Elements()) + {r}
    {
      ghost var t := buckets[..];
      var b := BucketIndex(r.code, buckets.Length);
      if buckets[b] != [] {
        collisions := collisions + |buckets[b]|;
      }
      if r !in buckets[b] {
        AppendKeepsWellFormed(t, r);
        TotalLengthUpdate(t, b, t[b] + [r]);
        ContentsAppend(t, b, r);
        buckets[b] := buckets[b] + [r];
        assert buckets[..] == t[b := t[b] + [r]];
        size := size + 1;
        outcome := Inserted;
      } else {
        ContentsLookup(t, r);
        assert buckets[..] == t;
        outcome := AlreadyPresent;
      }
    }

    /** `buscar`: membership in the bucket the code hashes to, which is
        membership in the table. */
    method Search(r: Record) returns (found: bool)
      requires Valid() && buckets.Length >= 1
      ensures found <==> r in Elements()
      ensures found <==> r in buckets[BucketOf(r.code, buckets.Length)]
    {
      var b := BucketIndex(r.code, buckets.Length);
      found := r in buckets[b];
      ContentsLookup(buckets[..], r);
    }

    /** `getTamanho`: the number of records stored, the total bucket
        length. */
    function Size(): (n: int)
      reads this, buckets
      requires Valid()
      ensures n == |Elements()| && n == TotalLength(buckets[..])
    {
      if buckets.Length >= 1 then ContentsCount(buckets[..], buckets.Length); size
      else size
    }

    /** `getColisoes`. */
    function Collisions(): (c: int)
      reads this, buckets
      requires Valid()
      ensures c >= 0
    {
      collisions
    }

    /** `getMaiorLista`: the length of the longest bucket, 0 when every
        bucket is empty. */
    method LargestList() returns (n: int)
      ensures forall b :: 0 <= b < buckets.Length ==> |buckets[b]| <= n
      ensures n == 0 || exists b :: 0 <= b < buckets.Length && |buckets[b]| == n
    {
      n := 0;
      for i := 0 to buckets.Length
        invariant forall b :: 0 <= b < i ==> |buckets[b]| <= n
        invariant n == 0 || exists b :: 0 <= b < i && |buckets[b]| == n
      {
        n := if n > |buckets[i]| then n else |buckets[i]|;
      }
    }

    /** `getTresMaioresListas`: the non-empty bucket lengths go into a
        max-priority queue (kept here as the sequence of its poll order), and
        up to three are polled. */
    method TopThreeLists() returns (top: seq<int>)
      ensures top == Statistics.TopThree(NonEmptyLengths(buckets[..]))
    {
      var queue: seq<int> := [];
      for i := 0 to buckets.Length
        invariant queue == Statistics.SortDesc(NonEmptyLengths(buckets[..i]))
      {
        assert buckets[..i + 1][..i] == buckets[..i];
        ghost var seen := NonEmptyLengths(buckets[..i]);
        if buckets[i] != [] {
          Statistics.SortDescSnoc(seen, |buckets[i]|);
          queue := Statistics.InsertDesc(queue, |buckets[i]|);
        } else {
          assert seen + [] == seen;
        }
      }
      assert buckets[..buckets.Length] == buckets[..];
      ghost var polled := queue;
      top := [];
      var i := 0;
      while i < 3 && queue != []
        invariant 0 <= i <= 3 && i <= |polled|
        invariant top == polled[..i] && queue == polled[i..]
      {
        top := top + [queue[0]];
        queue := queue[1..];
        i := i + 1;
      }
    }

    /** `getGaps`, over the non-empty buckets. */
    method Gaps() returns (g: seq<int>)
      requires Valid()
      ensures g == Statistics.GapSummary(BucketOccupancy(buckets[..]))
      ensures |g| == 3 && 0 <= g[0] <= g[2] <= g[1]
    {
      var a := buckets;
      var occ := seq(a.Length, j requires 0 <= j < a.Length reads a => a[j] != []);
      assert occ == BucketOccupancy(buckets[..]);
      g := Statistics.Gaps(occ);
      Statistics.GapSummaryBounds(occ);
    }
  }

  /** The first of the top three is the longest bucket: its length is a
      bucket's length, and no bucket is longer. */
  lemma TopThreeHeadIsLargest(t: seq<seq<Record>>)
    requires exists b :: 0 <= b < |t| && t[b] != []
    ensures Statistics.TopThree(NonEmptyLengths(t)) != []
    ensures exists b :: 0 <= b < |t| && |t[b]| == Statistics.TopThree(NonEmptyLengths(t))[0]
    ensures forall b :: 0 <= b < |t| ==> |t[b]| <= Statistics.TopThree(NonEmptyLengths(t))[0]
  {
    var xs := NonEmptyLengths(t);
    var b :| 0 <= b < |t| && t[b] != [];
    NonEmptyLengthsMembership(t, |t[b]|);
    Statistics.TopThreeHead(xs);
    var head := Statistics.TopThree(xs)[0];
    NonEmptyLengthsMembership(t, head);
    forall c | 0 <= c < |t|
      ensures |t[c]| <= head
    {
      if t[c] != [] {
        NonEmptyLengthsMembership(t, |t[c]|);
      }
    }
  }

  lemma {:induction false} NonEmptyLengthsMembership(t: seq<seq<Record>>, n: int)
    ensures n in NonEmptyLengths(t) <==> exists b :: 0 <= b < |t| && t[b] != [] && |t[b]| == n
    decreases |t|
  {
    if t != [] {
      var p := t[..|t| - 1];
      NonEmptyLengthsMembership(p, n);
      if exists b :: 0 <= b < |t| && t[b] != [] && |t[b]| == n {
        var b :| 0 <= b < |t| && t[b] != [] && |t[b]| == n;
        if b < |p| {
          assert p[b] == t[b];
        }
      }
      if n in NonEmptyLengths(p) {
        var b :| 0 <= b < |p| && p[b] != [] && |p[b]| == n;
        assert t[b] == p[b];
      }
    }
  }

  /** A table with every bucket empty reports exactly the interface
      defaults: no top-three lengths and gaps [0, 0, 0]. */
  lemma EmptyTableStatistics(t: seq<seq<Record>>)
    requires forall b :: 0 <= b < |t| ==> t[b] == []
    ensures Statistics.TopThree(NonEmptyLengths(t)) == DefaultTopThree
    ensures Statistics.GapSummary(BucketOccupancy(t)) == DefaultGaps
  {
    NoNonEmptyLengths(t);
    NoPositions(BucketOccupancy(t));
    Statistics.GapSummaryBounds(BucketOccupancy(t));
  }

  lemma {:induction false} NoNonEmptyLengths(t: seq<seq<Record>>)
    requires forall b :: 0 <= b < |t| ==> t[b] == []
    ensures NonEmptyLengths(t) == []
    decreases |t|
  {
    if t != [] {
      NoNonEmptyLengths(t[..|t| - 1]);
    }
  }

  lemma {:induction false} NoPositions(occ: seq<bool>)
    requires forall j :: 0 <= j < |occ| ==> !occ[j]
    ensures Statistics.Positions(occ) == []
    decreases |occ|
  {
    if occ != [] {
      NoPositions(occ[..|occ| - 1]);
    }
  }

  /** The codes "000000001" to "000000005": eight zeros contribute nothing to
      the hash, so with ten buckets the code ending in digit `d` lands in
      bucket `d`. */
  lemma LeadingZerosBucket(code: string, d: int)
    requires 1 <= d <= 5 && |code| == 9
    requires forall i :: 0 <= i < 8 ==> code[i] == '0'
    requires Digit(code[8]) == d
    ensures BucketOf(code, 10) == d
  {
    ZerosHashToZero(code[..8], 37);
    assert code[..9] == code;
  }

  /** Inserting the records "000000001" to "000000005" into a fresh table of
      ten buckets puts each in its own bucket: no collision, five records. */
  method FirstFiveCodes() returns (collisions: int, size: int)
    ensures collisions == 0 && size == 5
  {
    var table := new ChainingTable(10);
    for d := 1 to 6
      invariant table.Valid() && fresh(table.buckets) && table.buckets.Length == 10
      invariant table.collisions == 0 && table.size == d - 1
      invariant forall b :: d <= b < 10 ==> table.buckets[b] == []
    {
      var code := "00000000" + [(('0' as int) + d) as char];
      LeadingZerosBucket(code, d);
      var outcome := table.Insert(Record(code));
    }
    collisions, size := table.collisions, table.size;
  }
}
