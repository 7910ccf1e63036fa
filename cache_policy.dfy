// The replacement policy shared by the CPU's built-in cache and the
// standalone Cache: sixteen fully associative lines, filled lowest free
// index first, evicted in FIFO order, written through and allocated on
// write. Both implementations are proved to follow these functions.
module CachePolicy {

  const LINES: nat := 16

  /** One cache line: whether it holds a word, the memory address it holds, and the word. */
  datatype Line = Line(valid: bool, tag: int, data: int)

  /** The lines in index order and the FIFO queue of line indices in fill order. */
  datatype CacheState = CacheState(lines: seq<Line>, fifo: seq<int>)

  /** A freshly constructed or reset line: invalid, tag -1, data 0. */
  const InvalidLine: Line := Line(false, -1, 0)

  predicate Distinct(q: seq<int>)
  {
    forall i, j :: 0 <= i < j < |q| ==> q[i] != q[j]
  }

  /** The queue lists each valid line's index exactly once and nothing else. */
  predicate QueueMatchesValid(c: CacheState)
  {
    && |c.lines| == LINES
    && Distinct(c.fifo)
    && (forall k :: k in c.fifo ==> 0 <= k < LINES)
    && (forall k :: 0 <= k < LINES ==> (c.lines[k].valid <==> k in c.fifo))
  }

  /** At most one valid line holds a given address. */
  predicate TagsUnique(c: CacheState)
  {
    forall i, j :: 0 <= i < j < |c.lines| && c.lines[i].valid && c.lines[j].valid ==>
      c.lines[i].tag != c.lines[j].tag
  }

  predicate Wf(c: CacheState)
  {
    QueueMatchesValid(c) && TagsUnique(c)
  }

  /** Every valid line holds a legal address and the word memory holds there. */
  predicate Coherent(c: CacheState, mem: seq<int>)
  {
    forall k :: 0 <= k < |c.lines| && c.lines[k].valid ==>
      0 <= c.lines[k].tag < |mem| && c.lines[k].data == mem[c.lines[k].tag]
  }

  /** The cache as constructed and after a reset: every line invalid, queue empty. */
  function Empty(): (c: CacheState)
    ensures Wf(c) && ValidTags(c) == {}
    ensures forall a :: !IsHit(c, a)
  {
    var c := CacheState(seq(LINES, _ => InvalidLine), []);
    assert forall k :: 0 <= k < LINES ==> c.lines[k] == InvalidLine;
    c
  }

  /** The addresses held by valid lines. */
  function ValidTags(c: CacheState): set<int>
  {
    set k | 0 <= k < |c.lines| && c.lines[k].valid :: c.lines[k].tag
  }

  /** The index of the first valid line holding address `a`, or |lines| on a miss. */
  function Lookup(lines: seq<Line>, a: int): (k: nat)
    ensures k <= |lines|
    ensures k < |lines| ==> lines[k].valid && lines[k].tag == a
    ensures forall j :: 0 <= j < k ==> !(lines[j].valid && lines[j].tag == a)
  {
    if lines == [] then 0
    else if lines[0].valid && lines[0].tag == a then 0
    else 1 + Lookup(lines[1..], a)
  }

  /** The index of the lowest invalid line, or |lines| when every line is valid. */
  function FirstInvalid(lines: seq<Line>): (k: nat)
    ensures k <= |lines|
    ensures k < |lines| ==> !lines[k].valid
    ensures forall j :: 0 <= j < k ==> lines[j].valid
  {
    if lines == [] then 0
    else if !lines[0].valid then 0
    else 1 + FirstInvalid(lines[1..])
  }

  predicate IsHit(c: CacheState, a: int)
  {
    Lookup(c.lines, a) < |c.lines|
  }

  /**
   * Installing address `a` with word `d`: the lowest invalid line is filled
   * and its index appended to the queue; when every line is valid the line
   * at the queue head is overwritten and its index moved to the tail.
   */
  function Install(c: CacheState, a: int, d: int): CacheState
    requires QueueMatchesValid(c)
  {
    var k := FirstInvalid(c.lines);
    if k < |c.lines| then
      CacheState(c.lines[k := Line(true, a, d)], c.fifo + [k])
    else
      assert c.lines[0].valid && c.fifo[0] in c.fifo;
      var v := c.fifo[0];
      CacheState(c.lines[v := c.lines[v].(tag := a, data := d)], c.fifo[1..] + [v])
  }

  /** The cache after a read of `a` when memory holds `d` there: unchanged on a hit. */
  function Fill(c: CacheState, a: int, d: int): (r: CacheState)
    requires Wf(c)
    ensures Wf(r)
  {
    if IsHit(c, a) then c
    else
      InstallKeepsWf(c, a, d);
      Install(c, a, d)
  }

  /** The word a read of `a` returns when memory holds `d` there. */
  function Probe(c: CacheState, a: int, d: int): int
  {
    var k := Lookup(c.lines, a);
    if k < |c.lines| then c.lines[k].data else d
  }

  /** The cache after a write of `d` to `a`: the hit line's word changes, else `a` is installed. */
  function Update(c: CacheState, a: int, d: int): (r: CacheState)
    requires Wf(c)
    ensures Wf(r)
  {
    var k := Lookup(c.lines, a);
    if k < |c.lines| then
      var r := c.(lines := c.lines[k := c.lines[k].(data := d)]);
      assert forall j :: 0 <= j < |r.lines| ==>
        r.lines[j].valid == c.lines[j].valid && r.lines[j].tag == c.lines[j].tag;
      r
    else
      InstallKeepsWf(c, a, d);
      Install(c, a, d)
  }

  // ---------------------------------------------------------------------
  // Properties of the policy

  lemma EmptyIsCoherent(mem: seq<int>)
    ensures Coherent(Empty(), mem)
  {
    assert forall k :: 0 <= k < LINES ==> !Empty().lines[k].valid;
  }

  /** A queue without repetitions has as many elements as it has distinct values. */
  lemma {:induction false} DistinctCard(q: seq<int>)
    requires Distinct(q)
    ensures |set x | x in q| == |q|
  {
    if q != [] {
      var rest := q[1..];
      assert Distinct(rest);
      DistinctCard(rest);
      assert (set x | x in q) == (set x | x in rest) + {q[0]};
      assert q[0] !in rest;
    }
  }

  /** The indices 0 ..< n as a set. */
  function Indices(n: nat): (s: set<int>)
    ensures forall x :: x in s <==> 0 <= x < n
    ensures |s| == n
  {
    if n == 0 then {} else Indices(n - 1) + {n - 1}
  }

  /** With every line valid the queue holds all sixteen indices. */
  lemma FullQueueLength(c: CacheState)
    requires QueueMatchesValid(c)
    requires FirstInvalid(c.lines) == |c.lines|
    ensures |c.fifo| == LINES
  {
    DistinctCard(c.fifo);
    assert (set x | x in c.fifo) == Indices(LINES) by {
      forall x | 0 <= x < LINES ensures x in c.fifo { assert c.lines[x].valid; }
    }
  }

  /** Installing into a cache that has a free line fills the lowest free line and enqueues its index. */
  lemma InstallIntoFreeLine(c: CacheState, a: int, d: int)
    requires QueueMatchesValid(c)
    requires exists j :: 0 <= j < |c.lines| && !c.lines[j].valid
    ensures var r := Install(c, a, d);
      exists k :: 0 <= k < |c.lines|
        && !c.lines[k].valid && (forall j :: 0 <= j < k ==> c.lines[j].valid)
        && r.lines == c.lines[k := Line(true, a, d)]
        && r.fifo == c.fifo + [k]
  {
    var j :| 0 <= j < |c.lines| && !c.lines[j].valid;
    assert FirstInvalid(c.lines) <= j;
  }

  /**
   * Installing into a full cache overwrites the line at the queue head and
   * moves its index to the tail: every line stays valid and the queue keeps
   * its sixteen entries.
   */
  lemma InstallIntoFullCache(c: CacheState, a: int, d: int)
    requires QueueMatchesValid(c)
    requires forall j :: 0 <= j < |c.lines| ==> c.lines[j].valid
    ensures var r := Install(c, a, d);
      && |c.fifo| == LINES
      && 0 <= c.fifo[0] < LINES
      && r.fifo == c.fifo[1..] + [c.fifo[0]]
      && |r.fifo| == LINES
      && r.lines == c.lines[c.fifo[0] := Line(true, a, d)]
      && (forall j :: 0 <= j < |r.lines| ==> r.lines[j].valid)
  {
    assert FirstInvalid(c.lines) == |c.lines|;
    FullQueueLength(c);
    assert c.fifo[0] in c.fifo;
  }

  /** Installing an address that misses keeps both invariants and makes it a hit holding `d`. */
  lemma InstallKeepsWf(c: CacheState, a: int, d: int)
    requires Wf(c)
    requires !IsHit(c, a)
    ensures var r := Install(c, a, d);
      && Wf(r)
      && IsHit(r, a) && Probe(r, a, 0) == d
      && ValidTags(r) <= ValidTags(c) + {a}
  {
    var r := Install(c, a, d);
    var k := FirstInvalid(c.lines);
    assert k == |c.lines| ==> c.lines[0].valid && c.fifo[0] in c.fifo;
    var v := if k < |c.lines| then k else c.fifo[0];
    assert r.lines[v] == Line(true, a, d);
    forall j | 0 <= j < |r.lines| && j != v ensures r.lines[j] == c.lines[j] { }
    if k < |c.lines| {
      assert k !in c.fifo;
      forall x | x in r.fifo ensures 0 <= x < LINES { }
    } else {
      assert r.fifo == c.fifo[1..] + [v];
      assert c.fifo == [v] + c.fifo[1..];
      forall i, j | 0 <= i < j < |r.fifo| ensures r.fifo[i] != r.fifo[j] {
        if j == |r.fifo| - 1 {
          assert r.fifo[i] == c.fifo[i + 1];
        } else {
          assert r.fifo[i] == c.fifo[i + 1] && r.fifo[j] == c.fifo[j + 1];
        }
      }
      forall x ensures x in r.fifo <==> x in c.fifo {
        assert x in c.fifo <==> x == v || x in c.fifo[1..];
      }
    }
    assert forall j :: 0 <= j < |c.lines| && c.lines[j].valid ==> c.lines[j].tag != a;
    assert Lookup(r.lines, a) <= v;
  }

  /** A read keeps the invariants, and a coherent cache stays coherent with memory. */
  lemma FillKeepsInvariants(c: CacheState, mem: seq<int>, a: int)
    requires Wf(c) && 0 <= a < |mem|
    ensures Wf(Fill(c, a, mem[a]))
    ensures Coherent(c, mem) ==> Coherent(Fill(c, a, mem[a]), mem) && Probe(c, a, mem[a]) == mem[a]
  {
    if !IsHit(c, a) {
      InstallKeepsWf(c, a, mem[a]);
      var r := Install(c, a, mem[a]);
      var k := FirstInvalid(c.lines);
      var v := if k < |c.lines| then k else c.fifo[0];
      assert forall j :: 0 <= j < |r.lines| && j != v ==> r.lines[j] == c.lines[j];
    }
  }

  /**
   * A write keeps the invariants; memory written through at `a` stays
   * coherent with the cache, which now answers `d` for `a`.
   */
  lemma UpdateKeepsInvariants(c: CacheState, mem: seq<int>, a: int, d: int)
    requires Wf(c) && 0 <= a < |mem|
    ensures Wf(Update(c, a, d))
    ensures IsHit(Update(c, a, d), a) && Probe(Update(c, a, d), a, 0) == d
    ensures Coherent(c, mem) ==> Coherent(Update(c, a, d), mem[a := d])
  {
    var k := Lookup(c.lines, a);
    if k < |c.lines| {
      var r := Update(c, a, d);
      assert forall j :: 0 <= j < |r.lines| ==> r.lines[j].valid == c.lines[j].valid && r.lines[j].tag == c.lines[j].tag;
      assert Lookup(r.lines, a) == k;
      if Coherent(c, mem) {
        forall j | 0 <= j < |r.lines| && r.lines[j].valid
          ensures 0 <= r.lines[j].tag < |mem| && r.lines[j].data == mem[a := d][r.lines[j].tag]
        {
          if j != k { assert c.lines[j].tag != a; }
        }
      }
    } else {
      InstallKeepsWf(c, a, d);
      var r := Install(c, a, d);
      var f := FirstInvalid(c.lines);
      var v := if f < |c.lines| then f else c.fifo[0];
      assert forall j :: 0 <= j < |r.lines| && j != v ==> r.lines[j] == c.lines[j];
      assert forall j :: 0 <= j < |c.lines| && c.lines[j].valid ==> c.lines[j].tag != a;
    }
  }

  /** A read repeated at once is a hit that changes nothing and returns the same word. */
  lemma RereadHits(c: CacheState, a: int, d: int, e: int)
    requires Wf(c)
    ensures var c1 := Fill(c, a, d);
      IsHit(c1, a) && Fill(c1, a, e) == c1 && Probe(c1, a, e) == Probe(c, a, d)
  {
    if !IsHit(c, a) {
      InstallKeepsWf(c, a, d);
    }
  }

  /** A read leaves the cache as it was exactly when it hits. */
  lemma FillChangesExactlyOnMiss(c: CacheState, a: int, d: int)
    requires Wf(c)
    ensures Fill(c, a, d) == c <==> IsHit(c, a)
  {
    if !IsHit(c, a) {
      InstallKeepsWf(c, a, d);
      assert IsHit(Fill(c, a, d), a);
    }
  }

  /**
   * A write that hits keeps the queue and every line's valid bit and tag; the
   * line holding `a` gets word `d` and every other line keeps its word.
   */
  lemma UpdateOnHit(c: CacheState, a: int, d: int)
    requires Wf(c) && IsHit(c, a)
    ensures var r := Update(c, a, d);
      && r.fifo == c.fifo && |r.lines| == |c.lines| && ValidTags(r) == ValidTags(c)
      && forall j :: 0 <= j < |c.lines| ==>
           && r.lines[j].valid == c.lines[j].valid && r.lines[j].tag == c.lines[j].tag
           && r.lines[j].data == (if c.lines[j].valid && c.lines[j].tag == a then d else c.lines[j].data)
  {
    var k := Lookup(c.lines, a);
    var r := Update(c, a, d);
    forall j | 0 <= j < |c.lines| && j != k && c.lines[j].valid
      ensures c.lines[j].tag != a
    {
      if j < k { } else { assert c.lines[k].tag != c.lines[j].tag; }
    }
    assert forall j :: 0 <= j < |r.lines| ==> r.lines[j].valid == c.lines[j].valid && r.lines[j].tag == c.lines[j].tag;
  }

  // ---------------------------------------------------------------------
  // Reads of consecutive addresses from an empty cache

  /** The cache after reads of addresses 0 ..< n from `c`, memory holding `mem`. */
  function ReadsFrom(c: CacheState, mem: seq<int>, n: nat): (r: CacheState)
    requires Wf(c) && n <= |mem|
    ensures Wf(r)
  {
    if n == 0 then c
    else
      Fill(ReadsFrom(c, mem, n - 1), n - 1, mem[n - 1])
  }

  /** Lines 0 ..< n hold addresses 0 ..< n in order, the rest are invalid, and the queue is 0 ..< n. */
  predicate FilledInOrder(c: CacheState, mem: seq<int>, n: nat)
  {
    && n <= LINES && n <= |mem|
    && |c.lines| == LINES
    && (forall j :: 0 <= j < n ==> c.lines[j] == Line(true, j, mem[j]))
    && (forall j :: n <= j < LINES ==> !c.lines[j].valid)
    && c.fifo == seq(n, i => i)
  }

  lemma FillNextInOrder(c: CacheState, mem: seq<int>, n: nat)
    requires n < LINES && n < |mem|
    requires Wf(c) && FilledInOrder(c, mem, n)
    ensures FilledInOrder(Fill(c, n, mem[n]), mem, n + 1)
  {
    assert !IsHit(c, n) by {
      forall j | 0 <= j < LINES ensures !(c.lines[j].valid && c.lines[j].tag == n) {
        if j < n { assert c.lines[j].tag == j; }
      }
    }
    assert !c.lines[n].valid;
    assert FirstInvalid(c.lines) == n;
    var r := Fill(c, n, mem[n]);
    assert r.lines == c.lines[n := Line(true, n, mem[n])];
    assert r.fifo == c.fifo + [n];
    assert seq(n + 1, i => i) == seq(n, i => i) + [n];
  }

  /** The first sixteen reads fill lines 0 ..< n in order and queue them in that order. */
  lemma {:induction false} FirstReadsFillInOrder(mem: seq<int>, n: nat)
    requires n <= LINES && n <= |mem|
    ensures FilledInOrder(ReadsFrom(Empty(), mem, n), mem, n)
  {
    if n == 0 {
      assert forall j :: 0 <= j < LINES ==> !Empty().lines[j].valid;
    } else {
      FirstReadsFillInOrder(mem, n - 1);
      FillNextInOrder(ReadsFrom(Empty(), mem, n - 1), mem, n - 1);
    }
  }

  /** The seventeenth read misses in a full cache and overwrites line 0, the queue head. */
  lemma SeventeenthReadReplacesHead(mem: seq<int>)
    requires |mem| >= 17
    ensures var prev := ReadsFrom(Empty(), mem, 16);
      var r := ReadsFrom(Empty(), mem, 17);
      && FilledInOrder(prev, mem, 16)
      && r.lines == prev.lines[0 := Line(true, 16, mem[16])]
      && r.fifo == prev.fifo[1..] + [0]
  {
    FirstReadsFillInOrder(mem, 16);
    var prev := ReadsFrom(Empty(), mem, 16);
    assert Lookup(prev.lines, 16) == LINES by {
      forall j | 0 <= j < LINES ensures prev.lines[j].tag == j { }
    }
    assert FirstInvalid(prev.lines) == LINES;
    assert prev.fifo[0] == 0;
  }

  /** Lines 0 ..< 16 filled in order, then line 0 overwritten with address 16: tags 1 ..= 16 remain. */
  lemma TagsAfterReplacingHead(c: CacheState, mem: seq<int>, d: int, r: CacheState)
    requires FilledInOrder(c, mem, 16) && r.lines == c.lines[0 := Line(true, 16, d)]
    ensures forall t :: t in ValidTags(r) <==> 1 <= t <= 16
  {
    forall t | 1 <= t <= 16 ensures t in ValidTags(r) {
      var k := if t == 16 then 0 else t;
      assert r.lines[k].valid && r.lines[k].tag == t;
    }
    forall t | t in ValidTags(r) ensures 1 <= t <= 16 {
      var k :| 0 <= k < LINES && r.lines[k].valid && r.lines[k].tag == t;
    }
  }

  /** Seventeen reads of 0 ..= 16 from an empty cache evict the earliest fill: tags 1 ..= 16 remain. */
  lemma SeventeenReadsEvictFirst(mem: seq<int>)
    requires |mem| >= 17
    ensures forall t :: t in ValidTags(ReadsFrom(Empty(), mem, 17)) <==> 1 <= t <= 16
    ensures ReadsFrom(Empty(), mem, 17).fifo == seq(16, i => (i + 1) % 16)
  {
    SeventeenthReadReplacesHead(mem);
    var prev := ReadsFrom(Empty(), mem, 16);
    var r := ReadsFrom(Empty(), mem, 17);
    TagsAfterReplacingHead(prev, mem, mem[16], r);
    assert r.fifo == seq(16, i => (i + 1) % 16);
  }
}
