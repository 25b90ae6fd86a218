/** The table through which one processor tells the other where the shared buffers are
    (contrib/dualprocshm/src/dualprocshm-noos.c), byte by byte: four-byte little-endian entries, and in
    front of each buffer a header with its size and its lock byte. */
module DualprocTable {
  import opened Common

  const MAX_DYNAMIC_BUFF_COUNT := 15
  const DYN_MEM_TABLE_ENTRY_SIZE := 4
  const HEADER_SIZE := 4                  // sizeof(tDualprocMemInst)
  const SPAN_SIZE := 2                    // of which span

  type Byte = b: int | 0 <= b < 256

  // ----- numbers as bytes

  function Pow256(n: nat): (p: nat)
    ensures p > 0
  {
    if n == 0 then 1 else 256 * Pow256(n - 1)
  }

  /** The n low bytes of v, lowest first. */
  function Bytes(v: nat, n: nat): (r: seq<Byte>)
    ensures |r| == n
  {
    if n == 0 then [] else [v % 256] + Bytes(v / 256, n - 1)
  }

  function Value(bytes: seq<Byte>): nat {
    if bytes == [] then 0 else bytes[0] + 256 * Value(bytes[1..])
  }

  lemma {:induction false} ValueOfBytes(v: nat, n: nat)
    requires v < Pow256(n)
    ensures Value(Bytes(v, n)) == v
    decreases n
  {
    if n > 0 {
      ValueOfBytes(v / 256, n - 1);
      assert Bytes(v, n)[1..] == Bytes(v / 256, n - 1);
    }
  }

  /** Byte j is the digit of weight 256^j. */
  lemma {:induction false} ByteAt(v: nat, n: nat, j: nat)
    requires j < n
    ensures Bytes(v, n)[j] == v / Pow256(j) % 256
    decreases n
  {
    if j > 0 {
      ByteAt(v / 256, n - 1, j - 1);
      DivStep(v, Pow256(j - 1));
    }
  }

  lemma DivStep(v: nat, p: nat)
    requires p > 0
    ensures v / 256 / p == v / (256 * p)
  {
    var q, r := v / 256 / p, v / 256 % p;
    assert v / 256 == q * p + r;
    var low := 256 * r + v % 256;
    assert 256 * (q * p) == q * (256 * p);
    assert v == q * (256 * p) + low && 0 <= low < 256 * p;
    DivIs(v, 256 * p, q, low);
  }

  lemma DivIs(v: nat, d: nat, q: nat, r: nat)
    requires d > 0 && r < d && v == q * d + r
    ensures v / d == q
  {
    var e := v / d - q;
    assert v == (v / d) * d + v % d;
    assert e * d == r - v % d;
    assert e >= 1 ==> e * d >= d;
    assert e <= -1 ==> e * d <= -1 * d;
  }

  /** The entry of ID index is the four bytes at four times the index, lowest first; nothing else changes. */
  lemma EntryBytes(mem: Memory, table: nat, index: nat, addr: nat, x: nat)
    requires table + 60 <= |mem| && index < MAX_DYNAMIC_BUFF_COUNT && x < |mem|
    ensures Put(mem, EntryAddress(table, index), Bytes(addr, DYN_MEM_TABLE_ENTRY_SIZE))[x]
         == if table + 4 * index <= x < table + 4 * index + 4
            then addr / Pow256(x - table - 4 * index) % 256 else mem[x]
  {
    PutAt(mem, EntryAddress(table, index), Bytes(addr, DYN_MEM_TABLE_ENTRY_SIZE), x);
    if table + 4 * index <= x < table + 4 * index + 4 {
      ByteAt(addr, DYN_MEM_TABLE_ENTRY_SIZE, x - table - 4 * index);
    }
  }

  /** Bytes cut off at the top: the value modulo 256 to the n. */
  lemma {:induction false} ValueOfLowBytes(v: nat, n: nat, q: nat, r: nat)
    requires v == q * Pow256(n) + r && r < Pow256(n)
    ensures Bytes(v, n) == Bytes(r, n)
    decreases n
  {
    if n > 0 {
      var p := Pow256(n - 1);
      assert q * Pow256(n) == 256 * (q * p);
      ValueOfLowBytes(v / 256, n - 1, q, r / 256);
    }
  }

  // ----- memory

  type Memory = seq<Byte>

  /** memcpy to address a. */
  function Put(mem: Memory, a: nat, bytes: seq<Byte>): (r: Memory)
    requires a + |bytes| <= |mem|
    ensures |r| == |mem|
  {
    mem[..a] + bytes + mem[a + |bytes|..]
  }

  lemma GetPut(mem: Memory, a: nat, bytes: seq<Byte>, b: nat, n: nat)
    requires a + |bytes| <= |mem| && b + n <= |mem|
    ensures b == a && n == |bytes| ==> Put(mem, a, bytes)[b..b + n] == bytes
    ensures b + n <= a || a + |bytes| <= b ==> Put(mem, a, bytes)[b..b + n] == mem[b..b + n]
  {
  }

  // ----- what happens to the memory

  /** A buffer handed out: where malloc put it, and the size asked for. */
  datatype Block = Block(base: nat, size: nat)

  /** One processor allocates and frees; either may write into a buffer that is not released. */
  datatype Event = Alloc(id: nat, block: Block) | Free(id: nat) | Write(id: nat, offset: nat, value: Byte)

  /** The latest allocation under an ID that has not been released. */
  function Latest(run: seq<Event>, id: nat): Option<Block>
    decreases |run|
  {
    if run == [] then None else LatestThen(Latest(run[..|run| - 1], id), run[|run| - 1], id)
  }

  function LatestThen(latest: Option<Block>, e: Event, id: nat): Option<Block> {
    if e.Alloc? && e.id == id then Some(e.block)
    else if e.Free? && e.id == id then None
    else latest
  }

  /** The latest allocation under an ID, released or not. */
  function LastAlloc(run: seq<Event>, id: nat): Option<Block>
    decreases |run|
  {
    if run == [] then None
    else
      var e := run[|run| - 1];
      if e.Alloc? && e.id == id then Some(e.block) else LastAlloc(run[..|run| - 1], id)
  }

  lemma {:induction false} LatestIsLast(run: seq<Event>, id: nat)
    ensures Latest(run, id).Some? ==> LastAlloc(run, id) == Latest(run, id)
    decreases |run|
  {
    if run != [] {
      LatestIsLast(run[..|run| - 1], id);
    }
  }

  /** The ID was released at i and not allocated again since. */
  predicate ReleasedAt(run: seq<Event>, id: nat, i: nat) {
    && i < |run| && run[i] == Free(id)
    && (forall j :: i < j < |run| ==> !(run[j].Alloc? && run[j].id == id))
  }

  /** What was allocated under an ID is released exactly if there was a release after the allocation. */
  lemma {:induction false} ReleasedExactlyWhen(run: seq<Event>, id: nat)
    requires LastAlloc(run, id).Some?
    ensures Latest(run, id) == None <==> exists i :: ReleasedAt(run, id, i)
    decreases |run|
  {
    var e, before := run[|run| - 1], run[..|run| - 1];
    if e == Free(id) {
      assert ReleasedAt(run, id, |run| - 1);
    } else if !(e.Alloc? && e.id == id) {
      ReleasedExactlyWhen(before, id);
      if i: nat :| ReleasedAt(before, id, i) {
        assert ReleasedAt(run, id, i);
      }
      if i: nat :| ReleasedAt(run, id, i) {
        assert i < |before|;
        assert ReleasedAt(before, id, i);
      }
    }
  }

  predicate Apart(a: nat, n: nat, b: nat, m: nat) {
    a + n <= b || b + m <= a
  }

  predicate BlocksApart(b: Block, c: Block) {
    Apart(b.base, HEADER_SIZE + b.size, c.base, HEADER_SIZE + c.size)
  }

  function EntryAddress(table: nat, id: nat): nat {
    table + id * DYN_MEM_TABLE_ENTRY_SIZE
  }

  /** A place malloc may give: not null, inside memory with 32-bit addresses, away from the table. */
  predicate Placed(b: Block, table: nat, memSize: nat) {
    && 0 < b.base && b.base + HEADER_SIZE + b.size <= memSize
    && Apart(b.base, HEADER_SIZE + b.size, table, MAX_DYNAMIC_BUFF_COUNT * DYN_MEM_TABLE_ENTRY_SIZE)
  }

  /** malloc keeps away from what is not released, and the processors write only into buffers. */
  predicate Possible(run: seq<Event>, e: Event, table: nat, memSize: nat) {
    && e.id < MAX_DYNAMIC_BUFF_COUNT
    && (e.Alloc? ==>
          Placed(e.block, table, memSize)
          && (forall j :: 0 <= j < MAX_DYNAMIC_BUFF_COUNT && Latest(run, j).Some? ==>
                BlocksApart(e.block, Latest(run, j).value)))
    && (e.Write? ==> Latest(run, e.id).Some? && e.offset < Latest(run, e.id).value.size)
  }

  predicate History(run: seq<Event>, table: nat, memSize: nat)
    decreases |run|
  {
    run != [] ==>
      var before := run[..|run| - 1];
      History(before, table, memSize) && Possible(before, run[|run| - 1], table, memSize)
  }

  function Zeros(n: nat): (r: seq<Byte>)
    ensures |r| == n && forall i :: 0 <= i < n ==> r[i] == 0
  {
    if n == 0 then [] else Zeros(n - 1) + [0]
  }

  /** A cleared buffer with its header. */
  function NewBuffer(mem: Memory, base: nat, size: nat): (r: Memory)
    requires base + HEADER_SIZE + size <= |mem|
    ensures |r| == |mem|
  {
    Put(Put(mem, base, Zeros(HEADER_SIZE + size)), base, Bytes(size, SPAN_SIZE))
  }

  /** Clears the buffer, writes the header and enters the address in the table. */
  function AllocBytes(mem: Memory, table: nat, id: nat, b: Block): (r: Memory)
    requires b.base + HEADER_SIZE + b.size <= |mem| && EntryAddress(table, id) + 4 <= |mem|
    ensures |r| == |mem|
  {
    Put(NewBuffer(mem, b.base, b.size), EntryAddress(table, id), Bytes(b.base, DYN_MEM_TABLE_ENTRY_SIZE))
  }

  function MemoryAfter(mem: Memory, run: seq<Event>, table: nat): (r: Memory)
    requires table + 60 <= |mem| && History(run, table, |mem|)
    ensures |r| == |mem|
    decreases |run|
  {
    if run == [] then mem
    else
      var before := run[..|run| - 1];
      Step(MemoryAfter(mem, before, table), before, run[|run| - 1], table)
  }

  /** What an event does to memory m. */
  function Step(m: Memory, before: seq<Event>, e: Event, table: nat): (r: Memory)
    requires table + 60 <= |m| && History(before, table, |m|) && Possible(before, e, table, |m|)
    ensures |r| == |m|
  {
    match e
    case Alloc(id, block) => AllocBytes(m, table, id, block)
    case Free(id) => Put(m, EntryAddress(table, id), Bytes(0, DYN_MEM_TABLE_ENTRY_SIZE))
    case Write(id, offset, value) =>
      LatestIsPlaced(before, table, |m|, id);
      Put(m, Latest(before, id).value.base + HEADER_SIZE + offset, [value])
  }

  lemma {:induction false} LatestIsPlaced(run: seq<Event>, table: nat, memSize: nat, id: nat)
    requires History(run, table, memSize) && Latest(run, id).Some?
    ensures id < MAX_DYNAMIC_BUFF_COUNT && Placed(Latest(run, id).value, table, memSize)
    decreases |run|
  {
    var e, before := run[|run| - 1], run[..|run| - 1];
    if !(e.Alloc? && e.id == id) {
      LatestIsPlaced(before, table, memSize, id);
    }
  }

  /** Buffers under different IDs never overlap. */
  lemma {:induction false} LatestAreApart(run: seq<Event>, table: nat, memSize: nat, i: nat, j: nat)
    requires History(run, table, memSize) && i != j
    requires Latest(run, i).Some? && Latest(run, j).Some?
    ensures BlocksApart(Latest(run, i).value, Latest(run, j).value)
    decreases |run|
  {
    var e, before := run[|run| - 1], run[..|run| - 1];
    if e.Alloc? && e.id == i {
      LatestIsPlaced(before, table, memSize, j);
    } else if e.Alloc? && e.id == j {
      LatestIsPlaced(before, table, memSize, i);
    } else {
      LatestAreApart(before, table, memSize, i, j);
    }
  }

  // ----- looking up

  function EntryOf(mem: Memory, table: nat, id: nat): nat
    requires EntryAddress(table, id) + 4 <= |mem|
  {
    Value(mem[EntryAddress(table, id)..EntryAddress(table, id) + 4])
  }

  /** dualprocshm_getMemory without allocation: where the buffer starts behind its header, its size and
      its lock byte, or nothing if the entry is null. */
  datatype Found = Found(base: nat, size: nat, lock: Byte)

  function Lookup(mem: Memory, table: nat, id: nat): Option<Found>
    requires EntryAddress(table, id) + 4 <= |mem|
  {
    var p := EntryOf(mem, table, id);
    if p == 0 || p + HEADER_SIZE > |mem| then None
    else Some(Found(p + HEADER_SIZE, Value(mem[p..p + 2]), mem[p + 2]))
  }

  /** Entry and header say what was allocated last. */
  predicate Agrees(mem: Memory, table: nat, id: nat, latest: Option<Block>)
    requires EntryAddress(table, id) + 4 <= |mem|
  {
    && mem[EntryAddress(table, id)..EntryAddress(table, id) + 4] == Bytes(if latest.Some? then latest.value.base else 0, DYN_MEM_TABLE_ENTRY_SIZE)
    && (latest.Some? ==>
          latest.value.base + HEADER_SIZE <= |mem|
          && mem[latest.value.base..latest.value.base + HEADER_SIZE] == Bytes(latest.value.size, SPAN_SIZE) + [0, 0])
  }

  lemma ZerosThere(mem: Memory, a: nat, n: nat, b: nat, k: nat)
    requires a + n <= |mem| && a <= b && b + k <= a + n
    ensures Put(mem, a, Zeros(n))[b..b + k] == Zeros(k)
  {
  }

  /** Span, lock byte and reserved byte of a new buffer. */
  lemma HeaderWritten(mem: Memory, base: nat, size: nat)
    requires base + HEADER_SIZE + size <= |mem|
    ensures NewBuffer(mem, base, size)[base..base + HEADER_SIZE]
         == Bytes(size, SPAN_SIZE) + [0, 0]
  {
    var m0 := Put(mem, base, Zeros(HEADER_SIZE + size));
    var m1 := Put(m0, base, Bytes(size, SPAN_SIZE));
    ZerosThere(mem, base, HEADER_SIZE + size, base + SPAN_SIZE, 2);
    GetPut(m0, base, Bytes(size, SPAN_SIZE), base, SPAN_SIZE);
    GetPut(m0, base, Bytes(size, SPAN_SIZE), base + SPAN_SIZE, 2);
    assert Zeros(2) == [0, 0];
    assert m1[base..base + HEADER_SIZE] == m1[base..base + 2] + m1[base + 2..base + 4];
  }

  lemma AllocAgrees(mem: Memory, table: nat, id: nat, b: Block)
    requires table + 60 <= |mem| && id < MAX_DYNAMIC_BUFF_COUNT && Placed(b, table, |mem|)
    ensures Agrees(AllocBytes(mem, table, id, b), table, id, Some(b))
  {
    var a, entry := EntryAddress(table, id), Bytes(b.base, DYN_MEM_TABLE_ENTRY_SIZE);
    var m := NewBuffer(mem, b.base, b.size);
    HeaderWritten(mem, b.base, b.size);
    GetPut(m, a, entry, a, DYN_MEM_TABLE_ENTRY_SIZE);
    GetPut(m, a, entry, b.base, HEADER_SIZE);
  }

  /** A write elsewhere leaves entry and header alone. */
  lemma PutElsewhere(mem: Memory, a: nat, bytes: seq<Byte>, table: nat, id: nat, latest: Option<Block>)
    requires a + |bytes| <= |mem| && EntryAddress(table, id) + 4 <= |mem|
    requires Agrees(mem, table, id, latest)
    requires Apart(a, |bytes|, EntryAddress(table, id), 4)
    requires latest.Some? ==> Apart(a, |bytes|, latest.value.base, HEADER_SIZE)
    ensures Agrees(Put(mem, a, bytes), table, id, latest)
  {
    GetPut(mem, a, bytes, EntryAddress(table, id), 4);
    if latest.Some? {
      GetPut(mem, a, bytes, latest.value.base, HEADER_SIZE);
    }
  }

  lemma AllocElsewhere(mem: Memory, table: nat, id: nat, b: Block, other: nat, latest: Option<Block>)
    requires table + 60 <= |mem| && id < MAX_DYNAMIC_BUFF_COUNT && other < MAX_DYNAMIC_BUFF_COUNT && id != other
    requires Placed(b, table, |mem|) && Agrees(mem, table, other, latest)
    requires latest.Some? ==> Placed(latest.value, table, |mem|) && BlocksApart(b, latest.value)
    ensures Agrees(AllocBytes(mem, table, id, b), table, other, latest)
  {
    var n := HEADER_SIZE + b.size;
    var m0 := Put(mem, b.base, Zeros(n));
    var m1 := Put(m0, b.base, Bytes(b.size, SPAN_SIZE));
    PutElsewhere(mem, b.base, Zeros(n), table, other, latest);
    PutElsewhere(m0, b.base, Bytes(b.size, SPAN_SIZE), table, other, latest);
    PutElsewhere(m1, EntryAddress(table, id), Bytes(b.base, DYN_MEM_TABLE_ENTRY_SIZE), table, other, latest);
  }

  lemma AllocStepAgrees(m: Memory, before: seq<Event>, e: Event, table: nat, id: nat)
    requires table + 60 <= |m| && History(before, table, |m|) && Possible(before, e, table, |m|) && e.Alloc?
    requires id < MAX_DYNAMIC_BUFF_COUNT && Agrees(m, table, id, Latest(before, id))
    ensures Agrees(AllocBytes(m, table, e.id, e.block), table, id, LatestThen(Latest(before, id), e, id))
  {
    if e.id == id {
      AllocAgrees(m, table, id, e.block);
    } else {
      if Latest(before, id).Some? {
        LatestIsPlaced(before, table, |m|, id);
      }
      AllocElsewhere(m, table, e.id, e.block, id, Latest(before, id));
    }
  }

  lemma WrittenBlock(run: seq<Event>, table: nat, memSize: nat, written: nat, id: nat)
    requires History(run, table, memSize) && Latest(run, written).Some?
    ensures Placed(Latest(run, written).value, table, memSize)
    ensures Latest(run, id).Some? ==>
      Latest(run, id) == Latest(run, written) || BlocksApart(Latest(run, id).value, Latest(run, written).value)
  {
    LatestIsPlaced(run, table, memSize, written);
    if Latest(run, id).Some? && id != written {
      LatestAreApart(run, table, memSize, id, written);
    }
  }

  lemma FreeAgrees(m: Memory, table: nat, other: nat, id: nat, latest: Option<Block>)
    requires table + 60 <= |m| && other < MAX_DYNAMIC_BUFF_COUNT && id < MAX_DYNAMIC_BUFF_COUNT
    requires Agrees(m, table, id, latest)
    requires latest.Some? ==> Placed(latest.value, table, |m|)
    ensures Agrees(Put(m, EntryAddress(table, other), Bytes(0, DYN_MEM_TABLE_ENTRY_SIZE)), table, id, if other == id then None else latest)
  {
    GetPut(m, EntryAddress(table, other), Bytes(0, DYN_MEM_TABLE_ENTRY_SIZE), EntryAddress(table, id), 4);
    if other != id {
      PutElsewhere(m, EntryAddress(table, other), Bytes(0, DYN_MEM_TABLE_ENTRY_SIZE), table, id, latest);
    }
  }

  lemma WriteAgrees(m: Memory, table: nat, b: Block, offset: nat, value: Byte, id: nat, latest: Option<Block>)
    requires table + 60 <= |m| && id < MAX_DYNAMIC_BUFF_COUNT
    requires Placed(b, table, |m|) && offset < b.size
    requires latest.Some? ==> latest.value == b || BlocksApart(latest.value, b)
    requires Agrees(m, table, id, latest)
    ensures Agrees(Put(m, b.base + HEADER_SIZE + offset, [value]), table, id, latest)
  {
    PutElsewhere(m, b.base + HEADER_SIZE + offset, [value], table, id, latest);
  }

  lemma {:induction false} HistoryAgrees(mem: Memory, run: seq<Event>, table: nat, id: nat)
    requires table + 60 <= |mem| && History(run, table, |mem|) && id < MAX_DYNAMIC_BUFF_COUNT
    requires mem[EntryAddress(table, id)..EntryAddress(table, id) + 4] == Bytes(0, DYN_MEM_TABLE_ENTRY_SIZE)
    ensures Agrees(MemoryAfter(mem, run, table), table, id, Latest(run, id))
    decreases |run|
  {
    if run != [] {
      HistoryAgrees(mem, run[..|run| - 1], table, id);
      StepAgrees(MemoryAfter(mem, run[..|run| - 1], table), run[..|run| - 1], run[|run| - 1], table, id);
    }
  }

  lemma StepAgrees(m: Memory, before: seq<Event>, e: Event, table: nat, id: nat)
    requires table + 60 <= |m| && History(before, table, |m|) && Possible(before, e, table, |m|)
    requires id < MAX_DYNAMIC_BUFF_COUNT && Agrees(m, table, id, Latest(before, id))
    ensures Agrees(Step(m, before, e, table), table, id, LatestThen(Latest(before, id), e, id))
  {
    if e.Alloc? {
      AllocStepAgrees(m, before, e, table, id);
    } else if e.Free? {
      if Latest(before, id).Some? {
        LatestIsPlaced(before, table, |m|, id);
      }
      FreeAgrees(m, table, e.id, id, Latest(before, id));
    } else {
      WrittenBlock(before, table, |m|, e.id, id);
      WriteAgrees(m, table, Latest(before, e.id).value, e.offset, e.value, id, Latest(before, id));
    }
  }

  // ----- what is in the buffers

  /** Address x is in what the event writes. */
  predicate Touches(before: seq<Event>, e: Event, table: nat, x: nat)
    requires e.Write? ==> Latest(before, e.id).Some?
  {
    match e
    case Alloc(id, b) => b.base <= x < b.base + HEADER_SIZE + b.size || 0 <= x - EntryAddress(table, id) < 4
    case Free(id) => 0 <= x - EntryAddress(table, id) < 4
    case Write(id, offset, _) => x == Latest(before, id).value.base + HEADER_SIZE + offset
  }

  lemma PutAt(mem: Memory, a: nat, bytes: seq<Byte>, x: nat)
    requires a + |bytes| <= |mem| && x < |mem|
    ensures Put(mem, a, bytes)[x] == if a <= x < a + |bytes| then bytes[x - a] else mem[x]
  {
  }

  /** Byte x after an allocation. */
  lemma AllocAt(m: Memory, table: nat, id: nat, b: Block, x: nat)
    requires table + 60 <= |m| && id < MAX_DYNAMIC_BUFF_COUNT && Placed(b, table, |m|) && x < |m|
    requires !(0 <= x - EntryAddress(table, id) < 4)
    ensures b.base + HEADER_SIZE <= x < b.base + HEADER_SIZE + b.size ==> AllocBytes(m, table, id, b)[x] == 0
    ensures !(b.base <= x < b.base + HEADER_SIZE + b.size) ==> AllocBytes(m, table, id, b)[x] == m[x]
  {
    var cleared := Put(m, b.base, Zeros(HEADER_SIZE + b.size));
    PutAt(m, b.base, Zeros(HEADER_SIZE + b.size), x);
    PutAt(cleared, b.base, Bytes(b.size, SPAN_SIZE), x);
    PutAt(NewBuffer(m, b.base, b.size), EntryAddress(table, id), Bytes(b.base, DYN_MEM_TABLE_ENTRY_SIZE), x);
  }

  /** Nothing else changes. */
  lemma TouchesExactly(m: Memory, before: seq<Event>, e: Event, table: nat, x: nat)
    requires table + 60 <= |m| && History(before, table, |m|) && Possible(before, e, table, |m|)
    requires x < |m| && !Touches(before, e, table, x)
    ensures Step(m, before, e, table)[x] == m[x]
  {
    match e
    case Alloc(id, b) => AllocAt(m, table, id, b, x);
    case Free(id) => PutAt(m, EntryAddress(table, id), Bytes(0, DYN_MEM_TABLE_ENTRY_SIZE), x);
    case Write(id, offset, value) =>
      LatestIsPlaced(before, table, |m|, id);
      PutAt(m, Latest(before, id).value.base + HEADER_SIZE + offset, [value], x);
  }

  /** The byte a write is for. */
  lemma WriteAt(m: Memory, before: seq<Event>, e: Event, table: nat)
    requires table + 60 <= |m| && History(before, table, |m|) && Possible(before, e, table, |m|) && e.Write?
    ensures var x := Latest(before, e.id).value.base + HEADER_SIZE + e.offset;
            x < |m| && Step(m, before, e, table)[x] == e.value
  {
    LatestIsPlaced(before, table, |m|, e.id);
    PutAt(m, Latest(before, e.id).value.base + HEADER_SIZE + e.offset, [e.value],
          Latest(before, e.id).value.base + HEADER_SIZE + e.offset);
  }

  /** Event n is the allocation of this ID or a write to this byte of its buffer, and the last such thing;
      and the ID is not released after it. */
  predicate LastTouch(run: seq<Event>, id: nat, offset: nat, n: nat) {
    && n < |run| && run[n].id == id && (run[n].Alloc? || (run[n].Write? && run[n].offset == offset))
    && (forall i :: n < i < |run| && run[i].id == id ==> run[i].Write? && run[i].offset != offset)
  }

  /** Main result on the contents: after any history, each byte of a buffer that is not released is what was
      last written to it since its allocation, and zero if nothing was. */
  lemma {:induction false} BufferHolds(mem: Memory, run: seq<Event>, table: nat, id: nat, offset: nat, n: nat)
    requires table + 60 <= |mem| && History(run, table, |mem|)
    requires LastTouch(run, id, offset, n) && Latest(run, id).Some? && offset < Latest(run, id).value.size
    ensures var x := Latest(run, id).value.base + HEADER_SIZE + offset;
            x < |mem| && MemoryAfter(mem, run, table)[x] == if run[n].Alloc? then 0 else run[n].value
    decreases |run|
  {
    var e, before := run[|run| - 1], run[..|run| - 1];
    var m := MemoryAfter(mem, before, table);
    if n == |run| - 1 {
      TouchedByte(m, before, e, table, offset);
    } else {
      BufferHolds(mem, before, table, id, offset, n);
      OtherBytes(before, e, table, |mem|, id, offset);
      TouchesExactly(m, before, e, table, Latest(before, id).value.base + HEADER_SIZE + offset);
    }
  }

  /** The step that allocates the buffer or writes the byte. */
  lemma TouchedByte(m: Memory, before: seq<Event>, e: Event, table: nat, offset: nat)
    requires table + 60 <= |m| && History(before, table, |m|) && Possible(before, e, table, |m|)
    requires e.Alloc? || (e.Write? && e.offset == offset)
    requires offset < LatestThen(Latest(before, e.id), e, e.id).value.size
    ensures var x := LatestThen(Latest(before, e.id), e, e.id).value.base + HEADER_SIZE + offset;
            x < |m| && Step(m, before, e, table)[x] == if e.Alloc? then 0 else e.value
  {
    if e.Alloc? {
      AllocAt(m, table, e.id, e.block, e.block.base + HEADER_SIZE + offset);
    } else {
      WriteAt(m, before, e, table);
    }
  }

  /** What happens to other IDs and other bytes does not touch this byte. */
  lemma OtherBytes(before: seq<Event>, e: Event, table: nat, memSize: nat, id: nat, offset: nat)
    requires History(before, table, memSize) && Possible(before, e, table, memSize)
    requires Latest(before, id).Some? && offset < Latest(before, id).value.size
    requires e.id == id ==> e.Write? && e.offset != offset
    ensures !Touches(before, e, table, Latest(before, id).value.base + HEADER_SIZE + offset)
  {
    LatestIsPlaced(before, table, memSize, id);
    if e.Write? && e.id != id {
      LatestAreApart(before, table, memSize, id, e.id);
    }
  }

  /** And there always is such an event. */
  lemma {:induction false} LastTouchExists(run: seq<Event>, id: nat, offset: nat) returns (n: nat)
    requires Latest(run, id).Some?
    ensures LastTouch(run, id, offset, n)
    decreases |run|
  {
    var e, before := run[|run| - 1], run[..|run| - 1];
    if e.id == id && (e.Alloc? || (e.Write? && e.offset == offset)) {
      n := |run| - 1;
    } else {
      n := LastTouchExists(before, id, offset);
    }
  }

  lemma PowersOf256()
    ensures Pow256(2) == 0x1_0000 && Pow256(4) == 0x1_0000_0000
  {
    assert Pow256(2) == 256 * Pow256(1);
    assert Pow256(4) == 256 * Pow256(3) && Pow256(3) == 256 * Pow256(2);
  }

  lemma SizeReads(size: nat)
    ensures Value(Bytes(size, SPAN_SIZE)) == size % 0x1_0000
  {
    PowersOf256();
    ValueOfLowBytes(size, 2, size / 0x1_0000, size % 0x1_0000);
    ValueOfBytes(size % 0x1_0000, 2);
  }

  lemma SliceOfSlice(mem: Memory, a: nat, n: nat, k: nat)
    requires k <= n && a + n <= |mem|
    ensures mem[a..a + n][..k] == mem[a..a + k]
  {
  }

  /** What the other processor reads from entry and header. */
  lemma AgreesMeansFound(mem: Memory, table: nat, id: nat, b: Block)
    requires EntryAddress(table, id) + 4 <= |mem| && Agrees(mem, table, id, Some(b))
    requires 0 < b.base < Pow256(4)
    ensures Lookup(mem, table, id) == Some(Found(b.base + HEADER_SIZE, b.size % 0x1_0000, 0))
  {
    ValueOfBytes(b.base, DYN_MEM_TABLE_ENTRY_SIZE);
    SizeReads(b.size);
    var header, span := mem[b.base..b.base + HEADER_SIZE], Bytes(b.size, SPAN_SIZE);
    assert header == span + [0, 0];
    SliceOfSlice(mem, b.base, HEADER_SIZE, 2);
    assert header[..2] == span;
    assert mem[b.base + 2] == header[2];
  }

  /** Main result: after any history of allocations, releases and writes into buffers, starting from a
      cleared table, the other processor finds under each ID exactly the latest allocation not yet
      released, its size in the 16 bits of the header, and its lock byte still free. */
  lemma LookupAgrees(mem: Memory, run: seq<Event>, table: nat, id: nat)
    requires table + 60 <= |mem| <= 0x1_0000_0000 && History(run, table, |mem|) && id < MAX_DYNAMIC_BUFF_COUNT
    requires mem[EntryAddress(table, id)..EntryAddress(table, id) + 4] == Bytes(0, DYN_MEM_TABLE_ENTRY_SIZE)
    ensures Lookup(MemoryAfter(mem, run, table), table, id)
         == match Latest(run, id)
            case None => None
            case Some(b) => Some(Found(b.base + HEADER_SIZE, b.size % 0x1_0000, 0))
  {
    HistoryAgrees(mem, run, table, id);
    PowersOf256();
    if Latest(run, id).Some? {
      LatestIsPlaced(run, table, |mem|, id);
      AgreesMeansFound(MemoryAfter(mem, run, table), table, id, Latest(run, id).value);
    } else {
      ValueOfBytes(0, DYN_MEM_TABLE_ENTRY_SIZE);
    }
  }

  // ----- the driver

  datatype DualprocReturn = DualprocSuccessful | DualprocNoResource | DualprocInvalidParameter

  /** One processor's own note of a buffer; zero stands for a null pointer. */
  datatype DynRes = DynRes(base: nat, memInst: nat)

  /** The driver on one processor.  Two of them share the same memory. */
  class DualProcDrv {
    const mem: array<Byte>
    const addrTableBase: nat
    const dynResTbl: array<DynRes>

    predicate Valid()
      reads this
    {
      addrTableBase + 60 <= mem.Length && dynResTbl.Length == MAX_DYNAMIC_BUFF_COUNT
    }

    constructor (mem: array<Byte>, addrTableBase: nat)
      requires addrTableBase + 60 <= mem.Length
      ensures Valid() && this.mem == mem && this.addrTableBase == addrTableBase && fresh(dynResTbl)
    {
      this.mem, this.addrTableBase := mem, addrTableBase;
      dynResTbl := new DynRes[MAX_DYNAMIC_BUFF_COUNT](_ => DynRes(0, 0));
    }

    method TargetWriteData(base: nat, data: seq<Byte>)
      requires base + |data| <= mem.Length
      modifies mem
      ensures mem[..] == Put(old(mem[..]), base, data)
    {
      forall i | 0 <= i < |data| {
        mem[base + i] := data[i];
      }
    }

    method SetDynBuffAddr(index: nat, addr: nat)
      requires Valid() && index < MAX_DYNAMIC_BUFF_COUNT
      modifies mem
      ensures mem[..] == Put(old(mem[..]), EntryAddress(addrTableBase, index), Bytes(addr, DYN_MEM_TABLE_ENTRY_SIZE))
    {
      var tableEntryOffs := index * DYN_MEM_TABLE_ENTRY_SIZE;
      TargetWriteData(addrTableBase + tableEntryOffs, Bytes(addr, DYN_MEM_TABLE_ENTRY_SIZE));
    }

    method GetDynBuffAddr(index: nat) returns (buffAddr: nat)
      requires Valid() && index < MAX_DYNAMIC_BUFF_COUNT
      ensures buffAddr == EntryOf(mem[..], addrTableBase, index)
    {
      var tableEntryOffs := index * DYN_MEM_TABLE_ENTRY_SIZE;
      var a := addrTableBase + tableEntryOffs;
      assert mem[a..a + 4] == mem[..][a..a + 4];
      buffAddr := Value(mem[a..a + 4]);
    }

    /** Clears a new buffer and writes its header. */
    method WriteBuffer(malloc: nat, size: nat)
      requires malloc + HEADER_SIZE + size <= mem.Length
      modifies mem
      ensures mem[..] == NewBuffer(old(mem[..]), malloc, size)
    {
      TargetWriteData(malloc, Zeros(HEADER_SIZE + size));
      TargetWriteData(malloc, Bytes(size, SPAN_SIZE));
    }

    method Note(id: nat, malloc: nat) returns (addr: nat)
      requires id < dynResTbl.Length
      modifies dynResTbl
      ensures addr == malloc + HEADER_SIZE && dynResTbl[..] == old(dynResTbl[..])[id := DynRes(addr, malloc)]
    {
      dynResTbl[id] := DynRes(malloc + HEADER_SIZE, malloc);
      addr := dynResTbl[id].base;
    }

    method PublishBuffer(id: nat, size: nat, malloc: nat) returns (addr: nat)
      requires Valid() && id < MAX_DYNAMIC_BUFF_COUNT && malloc + HEADER_SIZE + size <= mem.Length
      modifies mem, dynResTbl
      ensures addr == malloc + HEADER_SIZE
      ensures mem[..] == AllocBytes(old(mem[..]), addrTableBase, id, Block(malloc, size))
      ensures dynResTbl[..] == old(dynResTbl[..])[id := DynRes(addr, malloc)]
    {
      WriteBuffer(malloc, size);
      ghost var m := mem[..];
      addr := Note(id, malloc);
      assert mem[..] == m;
      SetDynBuffAddr(id, malloc);
    }

    /** dualprocshm_getMemory with fAlloc_p set.  malloc is what the allocator answers. */
    method AllocMemory(id: nat, size: nat, malloc: nat) returns (ret: DualprocReturn, addr: nat)
      requires Valid() && id != MAX_DYNAMIC_BUFF_COUNT && mem.Length <= 0x1_0000_0000
      requires malloc != 0 ==> Placed(Block(malloc, size), addrTableBase, mem.Length)
      modifies mem, dynResTbl
      ensures ret == DualprocInvalidParameter <==> id > MAX_DYNAMIC_BUFF_COUNT
      ensures ret == DualprocNoResource <==> id < MAX_DYNAMIC_BUFF_COUNT && malloc == 0
      ensures ret != DualprocSuccessful ==> mem[..] == old(mem[..]) && dynResTbl[..] == old(dynResTbl[..])
      ensures ret == DualprocSuccessful ==>
        && addr == malloc + HEADER_SIZE
        && mem[..] == AllocBytes(old(mem[..]), addrTableBase, id, Block(malloc, size))
        && dynResTbl[..] == old(dynResTbl[..])[id := DynRes(addr, malloc)]
    {
      addr := 0;
      if id > MAX_DYNAMIC_BUFF_COUNT {
        return DualprocInvalidParameter, addr;
      }
      if malloc == 0 {
        return DualprocNoResource, addr;
      }
      addr := PublishBuffer(id, size, malloc);
      return DualprocSuccessful, addr;
    }

    /** dualprocshm_getMemory with fAlloc_p clear: what the table and the header say. */
    method FindMemory(id: nat) returns (ret: DualprocReturn, addr: nat, size: nat)
      requires Valid() && id != MAX_DYNAMIC_BUFF_COUNT
      requires id < MAX_DYNAMIC_BUFF_COUNT ==> EntryOf(mem[..], addrTableBase, id) + HEADER_SIZE <= mem.Length
      modifies dynResTbl
      ensures ret == DualprocInvalidParameter <==> id > MAX_DYNAMIC_BUFF_COUNT
      ensures id < MAX_DYNAMIC_BUFF_COUNT ==>
        match Lookup(mem[..], addrTableBase, id)
        case None => ret == DualprocNoResource && dynResTbl[..] == old(dynResTbl[..])
        case Some(found) =>
          && ret == DualprocSuccessful && addr == found.base && size == found.size
          && dynResTbl[..] == old(dynResTbl[..])[id := DynRes(addr, addr - HEADER_SIZE)]
    {
      addr, size := 0, 0;
      if id > MAX_DYNAMIC_BUFF_COUNT {
        return DualprocInvalidParameter, addr, size;
      }
      var memBase := GetDynBuffAddr(id);
      if memBase == 0 {
        return DualprocNoResource, addr, size;
      }
      dynResTbl[id] := DynRes(memBase + HEADER_SIZE, memBase);
      assert mem[memBase..memBase + 2] == mem[..][memBase..memBase + 2];
      size := Value(mem[memBase..memBase + 2]);
      addr := dynResTbl[id].base;
      return DualprocSuccessful, addr, size;
    }

    /** dualprocshm_freeMemory.  freed is the address given to free. */
    method FreeMemory(id: nat, fFree: bool) returns (ret: DualprocReturn, freed: Option<nat>)
      requires Valid() && id != MAX_DYNAMIC_BUFF_COUNT
      modifies mem, dynResTbl
      ensures ret == if id > MAX_DYNAMIC_BUFF_COUNT then DualprocInvalidParameter else DualprocSuccessful
      ensures ret != DualprocSuccessful ==>
        mem[..] == old(mem[..]) && dynResTbl[..] == old(dynResTbl[..]) && freed == None
      ensures ret == DualprocSuccessful ==>
        var was := old(dynResTbl[..]);
        && mem[..] == (if fFree then Put(old(mem[..]), EntryAddress(addrTableBase, id), Bytes(0, DYN_MEM_TABLE_ENTRY_SIZE)) else old(mem[..]))
        && freed == (if fFree then Some(was[id].memInst) else None)
        && dynResTbl[..] == was[id := DynRes(0, if fFree then was[id].memInst else 0)]
    {
      freed := None;
      if id > MAX_DYNAMIC_BUFF_COUNT {
        return DualprocInvalidParameter, freed;
      }
      if fFree {
        SetDynBuffAddr(id, 0);
        var memBase := dynResTbl[id].memInst;
        dynResTbl[id] := dynResTbl[id].(base := 0);
        freed := Some(memBase);
      } else {
        dynResTbl[id] := DynRes(0, 0);
      }
      return DualprocSuccessful, freed;
    }

    /** The driver has noted where the buffers are: the start of the memory even after the release, before
        the first allocation what it noted at first. */
    ghost predicate Noted(run: seq<Event>, first: seq<DynRes>)
      reads this, dynResTbl
      requires Valid() && |first| == MAX_DYNAMIC_BUFF_COUNT
    {
      NotedIn(dynResTbl[..], run, first)
    }

    method PerformAlloc(ghost before: seq<Event>, e: Event, ghost first: seq<DynRes>)
      requires Valid() && mem.Length <= 0x1_0000_0000 && History(before, addrTableBase, mem.Length)
      requires Possible(before, e, addrTableBase, mem.Length) && |first| == MAX_DYNAMIC_BUFF_COUNT && Noted(before, first) && e.Alloc?
      modifies mem, dynResTbl
      ensures mem[..] == Step(old(mem[..]), before, e, addrTableBase) && Noted(before + [e], first)
    {
      var ret, addr := AllocMemory(e.id, e.block.size, e.block.base);
      NotedAfter(before, e, first, old(dynResTbl[..]), dynResTbl[..]);
    }

    method PerformFree(ghost before: seq<Event>, e: Event, ghost first: seq<DynRes>) returns (freed: Option<nat>)
      requires Valid() && mem.Length <= 0x1_0000_0000 && History(before, addrTableBase, mem.Length)
      requires Possible(before, e, addrTableBase, mem.Length) && |first| == MAX_DYNAMIC_BUFF_COUNT && Noted(before, first) && e.Free?
      modifies mem, dynResTbl
      ensures mem[..] == Step(old(mem[..]), before, e, addrTableBase) && Noted(before + [e], first)
      ensures freed == Some(NotedAddress(before, e.id, first))
    {
      var ret;
      ret, freed := FreeMemory(e.id, true);
      NotedAfter(before, e, first, old(dynResTbl[..]), dynResTbl[..]);
    }

    method PerformWrite(ghost before: seq<Event>, e: Event, ghost first: seq<DynRes>)
      requires Valid() && mem.Length <= 0x1_0000_0000 && History(before, addrTableBase, mem.Length)
      requires Possible(before, e, addrTableBase, mem.Length) && |first| == MAX_DYNAMIC_BUFF_COUNT && Noted(before, first) && e.Write?
      modifies mem
      ensures mem[..] == Step(old(mem[..]), before, e, addrTableBase) && Noted(before + [e], first)
    {
      LatestIsPlaced(before, addrTableBase, mem.Length, e.id);
      NotedAfter(before, e, first, dynResTbl[..], dynResTbl[..]);
      TargetWriteData(dynResTbl[e.id].base + e.offset, [e.value]);
    }

    /** One call on the processor that owns the buffers.  freed is the address given to free. */
    method Perform(ghost before: seq<Event>, e: Event, ghost first: seq<DynRes>) returns (freed: Option<nat>)
      requires Valid() && mem.Length <= 0x1_0000_0000 && History(before, addrTableBase, mem.Length)
      requires Possible(before, e, addrTableBase, mem.Length) && |first| == MAX_DYNAMIC_BUFF_COUNT && Noted(before, first)
      modifies mem, dynResTbl
      ensures mem[..] == Step(old(mem[..]), before, e, addrTableBase) && Noted(before + [e], first)
      ensures e.Free? ==> freed == Some(NotedAddress(before, e.id, first))
    {
      freed := None;
      match e
      case Alloc(_, _) => PerformAlloc(before, e, first);
      case Free(_) => freed := PerformFree(before, e, first);
      case Write(_, _, _) => PerformWrite(before, e, first);
    }
  }

  /** The address a driver has noted for an ID, which is what it gives to free. */
  function NotedAddress(run: seq<Event>, id: nat, first: seq<DynRes>): nat
    requires id < |first|
  {
    match LastAlloc(run, id)
    case None => first[id].memInst
    case Some(b) => b.base
  }

  predicate NotedIn(tbl: seq<DynRes>, run: seq<Event>, first: seq<DynRes>)
    requires |tbl| == |first| == MAX_DYNAMIC_BUFF_COUNT
  {
    && (forall id :: 0 <= id < MAX_DYNAMIC_BUFF_COUNT ==> tbl[id].memInst == NotedAddress(run, id, first))
    && (forall id :: 0 <= id < MAX_DYNAMIC_BUFF_COUNT && Latest(run, id).Some? ==>
          tbl[id].base == Latest(run, id).value.base + HEADER_SIZE)
  }

  lemma NotedAfter(before: seq<Event>, e: Event, first: seq<DynRes>, was: seq<DynRes>, now: seq<DynRes>)
    requires |was| == |first| == MAX_DYNAMIC_BUFF_COUNT && e.id < MAX_DYNAMIC_BUFF_COUNT
    requires NotedIn(was, before, first)
    requires now == match e
                    case Alloc(id, block) => was[id := DynRes(block.base + HEADER_SIZE, block.base)]
                    case Free(id) => was[id := DynRes(0, was[id].memInst)]
                    case Write(_, _, _) => was
    ensures NotedIn(now, before + [e], first)
  {
    LatestSnoc(before, e);
  }

  lemma LatestSnoc(before: seq<Event>, e: Event)
    ensures forall id: nat :: Latest(before + [e], id) == LatestThen(Latest(before, id), e, id)
    ensures forall id: nat :: LastAlloc(before + [e], id)
                           == if e.Alloc? && e.id == id then Some(e.block) else LastAlloc(before, id)
  {
    assert (before + [e])[..|before|] == before;
  }

  lemma {:induction false} HistoryPrefix(run: seq<Event>, table: nat, memSize: nat, i: nat)
    requires History(run, table, memSize) && i <= |run|
    ensures History(run[..i], table, memSize)
    ensures i < |run| ==> Possible(run[..i], run[i], table, memSize)
    decreases |run|
  {
    if i == |run| {
      assert run[..i] == run;
    } else {
      var before := run[..|run| - 1];
      assert run[..i] == before[..i];
      HistoryPrefix(before, table, memSize, i);
    }
  }

  lemma NextEvent(mem: Memory, run: seq<Event>, table: nat, n: nat)
    requires table + 60 <= |mem| && History(run, table, |mem|) && n < |run|
    ensures History(run[..n], table, |mem|) && Possible(run[..n], run[n], table, |mem|)
    ensures run[..n + 1] == run[..n] + [run[n]] && History(run[..n + 1], table, |mem|)
    ensures MemoryAfter(mem, run[..n + 1], table) == Step(MemoryAfter(mem, run[..n], table), run[..n], run[n], table)
  {
    HistoryPrefix(run, table, |mem|, n);
    HistoryPrefix(run, table, |mem|, n + 1);
    assert run[..n + 1][..n] == run[..n];
  }

  method PerformNext(owner: DualProcDrv, ghost mem0: Memory, ghost first: seq<DynRes>, run: seq<Event>, n: nat)
    returns (freed: Option<nat>)
    requires owner.Valid() && owner.mem.Length == |mem0| <= 0x1_0000_0000 && |first| == MAX_DYNAMIC_BUFF_COUNT
    requires History(run, owner.addrTableBase, |mem0|) && n < |run|
    requires History(run[..n], owner.addrTableBase, |mem0|) && owner.Noted(run[..n], first)
    requires owner.mem[..] == MemoryAfter(mem0, run[..n], owner.addrTableBase)
    modifies owner.mem, owner.dynResTbl
    ensures History(run[..n + 1], owner.addrTableBase, |mem0|) && owner.Noted(run[..n + 1], first)
    ensures owner.mem[..] == MemoryAfter(mem0, run[..n + 1], owner.addrTableBase)
    ensures FreesNoted(run, n, first, freed)
  {
    NextEvent(mem0, run, owner.addrTableBase, n);
    freed := owner.Perform(run[..n], run[n], first);
  }

  /** If event n is a release, it gives the address noted for its ID to free. */
  predicate FreesNoted(run: seq<Event>, n: nat, first: seq<DynRes>, freed: Option<nat>)
    requires n < |run|
  {
    run[n].Free? && run[n].id < |first| ==> freed == Some(NotedAddress(run[..n], run[n].id, first))
  }

  /** A sequence of calls on one processor does to the memory what the history says, and every release
      gives the address of the latest allocation under its ID to free, whether it was released or not. */
  method Replay(owner: DualProcDrv, run: seq<Event>) returns (freed: seq<Option<nat>>)
    requires owner.Valid() && owner.mem.Length <= 0x1_0000_0000
    requires History(run, owner.addrTableBase, owner.mem.Length)
    modifies owner.mem, owner.dynResTbl
    ensures owner.mem[..] == MemoryAfter(old(owner.mem[..]), run, owner.addrTableBase)
    ensures |freed| == |run| && forall i :: 0 <= i < |run| ==> FreesNoted(run, i, old(owner.dynResTbl[..]), freed[i])
  {
    freed := [];
    ghost var mem0, table, first := owner.mem[..], owner.addrTableBase, owner.dynResTbl[..];
    HistoryPrefix(run, table, |mem0|, 0);
    for n := 0 to |run|
      invariant History(run[..n], table, |mem0|) && owner.Noted(run[..n], first)
      invariant owner.mem[..] == MemoryAfter(mem0, run[..n], table)
      invariant |freed| == n && forall i :: 0 <= i < n ==> FreesNoted(run, i, first, freed[i])
    {
      var address := PerformNext(owner, mem0, first, run, n);
      freed := freed + [address];
    }
    assert run[..|run|] == run;
  }

  /** So an allocation is given to free a second time exactly by a release that has another one between
      itself and the allocation. */
  lemma FreedAgainExactlyWhen(run: seq<Event>, n: nat, first: seq<DynRes>, freed: Option<nat>)
    requires n < |run| && run[n].Free? && run[n].id < |first| && FreesNoted(run, n, first, freed)
    requires LastAlloc(run[..n], run[n].id).Some?
    ensures freed == Some(LastAlloc(run[..n], run[n].id).value.base)
    ensures Latest(run[..n], run[n].id).Some? ==> freed == Some(Latest(run[..n], run[n].id).value.base)
    ensures Latest(run[..n], run[n].id) == None <==> exists i :: ReleasedAt(run[..n], run[n].id, i)
  {
    ReleasedExactlyWhen(run[..n], run[n].id);
    LatestIsLast(run[..n], run[n].id);
  }

  /** At m malloc gave ID j the address of the block last allocated under the ID id and released by then;
      since then j was neither released nor allocated again, nor was id allocated again. */
  predicate GivenAgain(run: seq<Event>, id: nat, j: nat, m: nat) {
    && m < |run| && run[m].Alloc? && run[m].id == j
    && LastAlloc(run, id).Some? && run[m].block.base == LastAlloc(run, id).value.base
    && LastAlloc(run[..m], id) == LastAlloc(run, id) && Latest(run[..m], id) == None
    && (forall i :: m < i < |run| ==> !OfId(run[i], j) && !(run[i].Alloc? && run[i].id == id))
  }

  /** An allocation or a release under this ID. */
  predicate OfId(e: Event, id: nat) {
    e.id == id && !e.Write?
  }

  lemma GivenAgainSnoc(before: seq<Event>, e: Event, id: nat, j: nat, m: nat)
    requires m < |before|
    ensures GivenAgain(before + [e], id, j, m)
       <==> GivenAgain(before, id, j, m) && !OfId(e, j) && !(e.Alloc? && e.id == id)
  {
    var run := before + [e];
    assert run[..m] == before[..m] && run[..|before|] == before && run[|before|] == e;
    assert forall i :: m < i < |before| ==> run[i] == before[i];
    if GivenAgain(before, id, j, m) && !OfId(e, j) && !(e.Alloc? && e.id == id) {
      assert GivenAgain(run, id, j, m);
    }
  }

  /** The last event gives the address of id's block to j. */
  lemma GivenAgainNow(before: seq<Event>, e: Event, table: nat, memSize: nat, id: nat, j: nat)
    requires History(before, table, memSize) && Possible(before, e, table, memSize)
    requires e.Alloc? && e.id == j && id != j
    requires LastAlloc(before, id).Some? && LastAlloc(before, id).value.base == e.block.base
    ensures GivenAgain(before + [e], id, j, |before|)
  {
    LatestSnoc(before, e);
    assert (before + [e])[..|before|] == before;
    if Latest(before, id).Some? {
      LatestIsLast(before, id);
      LatestIsPlaced(before, table, memSize, id);
      assert false;
    }
  }

  /** The address last allocated under one ID is that of a live block of another. */
  predicate Shared(run: seq<Event>, id: nat, j: nat) {
    LastAlloc(run, id).Some? && Latest(run, j).Some? && LastAlloc(run, id).value.base == Latest(run, j).value.base
  }

  /** It comes about only when malloc gives the address to j. */
  lemma SharedStep(before: seq<Event>, e: Event, table: nat, memSize: nat, id: nat, j: nat)
    requires History(before, table, memSize) && Possible(before, e, table, memSize) && id != j
    ensures Shared(before + [e], id, j)
       <==> if OfId(e, j) then e.Alloc? && GivenAgain(before + [e], id, j, |before|)
            else Shared(before, id, j) && !(e.Alloc? && e.id == id)
  {
    LatestSnoc(before, e);
    if e.Alloc? && e.id == j {
      if Shared(before + [e], id, j) {
        GivenAgainNow(before, e, table, memSize, id, j);
      }
      assert (before + [e])[|before|] == e;
    } else if e.Alloc? && e.id == id && Latest(before, j).Some? {
      LatestIsPlaced(before, table, memSize, j);
      assert BlocksApart(e.block, Latest(before, j).value);
    }
  }

  /** The address last allocated under one ID is that of a live block of another ID exactly if malloc gave
      it again after the release. */
  lemma {:induction false} SharedExactlyWhen(run: seq<Event>, table: nat, memSize: nat, id: nat, j: nat)
    requires History(run, table, memSize) && id != j
    ensures Shared(run, id, j) <==> exists m :: GivenAgain(run, id, j, m)
    decreases |run|
  {
    if run != [] {
      var e, before := run[|run| - 1], run[..|run| - 1];
      assert run == before + [e];
      SharedExactlyWhen(before, table, memSize, id, j);
      SharedStep(before, e, table, memSize, id, j);
      if m: nat :| GivenAgain(run, id, j, m) {
        if m < |before| {
          GivenAgainSnoc(before, e, id, j, m);
        }
      }
      if m: nat :| GivenAgain(before, id, j, m) {
        GivenAgainSnoc(before, e, id, j, m);
      }
    }
  }

  /** Main result on releases: one frees the live block of another ID exactly if malloc had given that ID the
      address of the block, already released, that this ID was last allocated. */
  lemma FreesLiveBlockExactlyWhen(run: seq<Event>, table: nat, memSize: nat, n: nat, first: seq<DynRes>,
                                  freed: Option<nat>, j: nat)
    requires History(run, table, memSize) && n < |run| && run[n].Free? && run[n].id < |first| && j != run[n].id
    requires FreesNoted(run, n, first, freed)
    requires LastAlloc(run[..n], run[n].id) == None ==> first[run[n].id].memInst == 0
    ensures Latest(run[..n], j).Some? && freed == Some(Latest(run[..n], j).value.base)
       <==> exists m :: GivenAgain(run[..n], run[n].id, j, m)
  {
    HistoryPrefix(run, table, memSize, n);
    SharedExactlyWhen(run[..n], table, memSize, run[n].id, j);
    if Latest(run[..n], j).Some? {
      LatestIsPlaced(run[..n], table, memSize, j);
    }
  }

  /** It happens: allocate, release, allocate at the same place under another ID, release the first again. */
  lemma LiveBlockFreed(id: nat, j: nat, b: Block, c: Block, table: nat, memSize: nat)
    requires id < MAX_DYNAMIC_BUFF_COUNT && j < MAX_DYNAMIC_BUFF_COUNT && id != j
    requires Placed(b, table, memSize) && Placed(c, table, memSize) && b.base == c.base
    ensures var run := [Alloc(id, b), Free(id), Alloc(j, c), Free(id)];
            && History(run, table, memSize)
            && Latest(run[..3], j) == Some(c) && Latest(run, j) == Some(c)
            && GivenAgain(run[..3], id, j, 2)
  {
    var run := [Alloc(id, b), Free(id), Alloc(j, c), Free(id)];
    assert run[..1] == [] + [Alloc(id, b)] && run[..2] == run[..1] + [Free(id)];
    assert run[..3] == run[..2] + [Alloc(j, c)] && run == run[..3] + [Free(id)];
    LatestSnoc([], Alloc(id, b));
    LatestSnoc(run[..1], Free(id));
    LatestSnoc(run[..2], Alloc(j, c));
    LatestSnoc(run[..3], Free(id));
    assert run[..3][..2] == run[..2] && run[..2][..1] == run[..1] && run[..1][..0] == [];
    assert History(run[..1], table, memSize);
    assert History(run[..2], table, memSize);
    assert History(run[..3], table, memSize);
  }

  /** Releasing twice is such a history. */
  lemma FreedTwice(id: nat, b: Block, table: nat, memSize: nat)
    requires id < MAX_DYNAMIC_BUFF_COUNT && Placed(b, table, memSize)
    ensures var run := [Alloc(id, b), Free(id), Free(id)];
            && History(run, table, memSize)
            && ReleasedAt(run[..2], id, 1)
            && LastAlloc(run[..1], id) == LastAlloc(run[..2], id) == Some(b)
  {
    var run := [Alloc(id, b), Free(id), Free(id)];
    assert run[..2] == [Alloc(id, b), Free(id)] && run[..1] == [Alloc(id, b)];
    assert run[..2][..1] == run[..1] && run[..1][..0] == [];
    assert History([], table, memSize);
    assert History(run[..1], table, memSize);
    assert History(run[..2], table, memSize);
  }

  /** Main result for the two drivers: after any such sequence of calls on one processor, the other finds
      the latest allocation not released. */
  method ReplayThenFind(owner: DualProcDrv, other: DualProcDrv, run: seq<Event>, id: nat)
    returns (ret: DualprocReturn, addr: nat, size: nat)
    requires owner.Valid() && other.Valid() && owner.mem == other.mem && owner.addrTableBase == other.addrTableBase
    requires owner.mem.Length <= 0x1_0000_0000 && id < MAX_DYNAMIC_BUFF_COUNT
    requires History(run, owner.addrTableBase, owner.mem.Length)
    requires var entry := EntryAddress(owner.addrTableBase, id);
             owner.mem[entry..entry + 4] == Bytes(0, DYN_MEM_TABLE_ENTRY_SIZE)
    modifies owner.mem, owner.dynResTbl, other.dynResTbl
    ensures match Latest(run, id)
            case None => ret == DualprocNoResource
            case Some(b) => ret == DualprocSuccessful && addr == b.base + HEADER_SIZE && size == b.size % 0x1_0000
  {
    ghost var mem0, table := owner.mem[..], owner.addrTableBase;
    assert mem0[EntryAddress(table, id)..EntryAddress(table, id) + 4] == Bytes(0, DYN_MEM_TABLE_ENTRY_SIZE);
    var freed := Replay(owner, run);
    LookupAgrees(mem0, run, table, id);
    EntryInMemory(mem0, run, table, id);
    ret, addr, size := other.FindMemory(id);
  }

  /** The entry that is found leads to a header inside the memory. */
  lemma EntryInMemory(mem: Memory, run: seq<Event>, table: nat, id: nat)
    requires table + 60 <= |mem| <= 0x1_0000_0000 && History(run, table, |mem|) && id < MAX_DYNAMIC_BUFF_COUNT
    requires mem[EntryAddress(table, id)..EntryAddress(table, id) + 4] == Bytes(0, DYN_MEM_TABLE_ENTRY_SIZE)
    ensures EntryOf(MemoryAfter(mem, run, table), table, id) + HEADER_SIZE <= |mem|
  {
    HistoryAgrees(mem, run, table, id);
    PowersOf256();
    match Latest(run, id)
    case None =>
      ValueOfBytes(0, DYN_MEM_TABLE_ENTRY_SIZE);
    case Some(b) =>
      LatestIsPlaced(run, table, |mem|, id);
      ValueOfBytes(b.base, DYN_MEM_TABLE_ENTRY_SIZE);
  }
}
