// The standalone cache: sixteen line records and a FIFO queue of line
// indices, updated in place. The memory it reads from and writes through
// to is passed to each call instead of being reached through a CPU.
module CacheUnit {
  import opened CachePolicy

  class Cache {
    var lines: array<Line>
    var fifo: seq<int>

    /** The cache's value: its lines in index order and its queue. */
    function View(): CacheState
      reads this, lines
    {
      CacheState(lines[..], fifo)
    }

    ghost predicate Valid()
      reads this, lines
    {
      lines.Length == LINES && Wf(View())
    }

    /** Sixteen invalid lines (tag -1, data 0) and an empty queue. */
    constructor ()
      ensures Valid() && View() == Empty()
      ensures fresh(lines)
    {
      lines := new Line[LINES](_ => InvalidLine);
      fifo := [];
      new;
      assert lines[..] == Empty().lines;
    }

    /** Invalidate every line, setting its tag to -1 and its data to 0, and clear the queue. */
    method Reset()
      requires lines.Length == LINES
      modifies this, lines
      ensures Valid() && View() == Empty() && lines == old(lines)
    {
      for i := 0 to LINES
        invariant lines == old(lines)
        invariant forall j :: 0 <= j < i ==> lines[j] == InvalidLine
      {
        lines[i] := InvalidLine;
      }
      fifo := [];
      assert lines[..] == Empty().lines;
    }

    /**
     * Read `address`: a hit returns the line's word and changes nothing; a
     * miss fetches the word from memory and installs it.
     */
    method Read(memory: array<int>, address: int) returns (data: int)
      requires Valid() && 0 <= address < memory.Length
      modifies this, lines
      ensures Valid() && lines == old(lines)
      ensures View() == Fill(old(View()), address, memory[address])
      ensures data == Probe(old(View()), address, memory[address])
      ensures old(Coherent(View(), memory[..])) ==> Coherent(View(), memory[..]) && data == memory[address]
    {
      ghost var c0 := View();
      FillKeepsInvariants(c0, memory[..], address);
      for i := 0 to LINES
        invariant View() == c0
        invariant forall j :: 0 <= j < i ==> !(lines[j].valid && lines[j].tag == address)
      {
        if lines[i].valid && lines[i].tag == address {
          assert Lookup(c0.lines, address) == i;
          data := lines[i].data;
          return;
        }
      }
      assert Lookup(c0.lines, address) == LINES;
      data := memory[address];
      AddToCache(address, data);
    }

    /**
     * Write `value` to `address`: memory is written first; a hit changes
     * only that line's word, a miss installs the word.
     */
    method Write(memory: array<int>, address: int, value: int)
      requires Valid() && 0 <= address < memory.Length
      modifies this, lines, memory
      ensures Valid() && lines == old(lines)
      ensures memory[..] == old(memory[..])[address := value]
      ensures View() == Update(old(View()), address, value)
      ensures old(Coherent(View(), memory[..])) ==> Coherent(View(), memory[..])
    {
      ghost var c0 := View();
      ghost var m0 := memory[..];
      UpdateKeepsInvariants(c0, m0, address, value);
      memory[address] := value;
      assert memory[..] == m0[address := value];
      for i := 0 to LINES
        invariant View() == c0
        invariant forall j :: 0 <= j < i ==> !(lines[j].valid && lines[j].tag == address)
      {
        if lines[i].valid && lines[i].tag == address {
          assert Lookup(c0.lines, address) == i;
          lines[i] := lines[i].(data := value);
          assert lines[..] == c0.lines[i := c0.lines[i].(data := value)];
          return;
        }
      }
      assert Lookup(c0.lines, address) == LINES;
      AddToCache(address, value);
    }

    /**
     * Install `address` (called only on a miss): the lowest invalid line is
     * filled and its index enqueued; with every line valid, the line at the
     * queue head is overwritten and its index re-enqueued.
     */
    method AddToCache(address: int, data: int)
      requires Valid() && !IsHit(View(), address)
      modifies this, lines
      ensures Valid() && lines == old(lines)
      ensures View() == Install(old(View()), address, data)
    {
      ghost var c0 := View();
      InstallKeepsWf(c0, address, data);
      for i := 0 to LINES
        invariant View() == c0
        invariant forall j :: 0 <= j < i ==> lines[j].valid
      {
        if !lines[i].valid {
          assert FirstInvalid(c0.lines) == i;
          lines[i] := Line(true, address, data);
          fifo := fifo + [i];
          assert lines[..] == c0.lines[i := Line(true, address, data)];
          return;
        }
      }
      assert FirstInvalid(c0.lines) == LINES;
      assert lines[0].valid && fifo[0] in fifo;
      var evict := fifo[0];
      fifo := fifo[1..];
      lines[evict] := lines[evict].(tag := address, data := data);
      fifo := fifo + [evict];
      assert lines[..] == c0.lines[evict := c0.lines[evict].(tag := address, data := data)];
    }
  }
}
