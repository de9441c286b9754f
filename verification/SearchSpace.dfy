/** The search space of the carver: a ring of disk ranges, a cursor over its blocks (pnext.h) and the splitting of a
    range (psearch.h). */
module SearchSpaces {
  import opened Bits
  import opened Rings
  import opened SortedInsertion

  /** alloc_data_t without its list node. */
  datatype Range = Range(start: nat, end: nat, data: nat, fileStat: Option<nat>)

  /** uint64_t arithmetic. */
  function U64(x: int): (r: nat)
    ensures r < 0x1_0000_0000_0000_0000
  {
    x % 0x1_0000_0000_0000_0000
  }

  /** The entries of the whole ring; the one of the list head comes first. */
  function Spaces(s: seq<ListHead<Range>>): (rs: seq<Range>)
    reads s
    ensures |rs| == |s|
    ensures forall k :: 0 <= k < |s| ==> rs[k] == s[k].entry
  {
    seq(|s|, k requires 0 <= k < |s| reads s => s[k].entry)
  }

  // ---- the cursor on values: position i of the ring and byte offset ----

  type Position = (nat, nat)

  function NextHeader(rs: seq<Range>, i: nat): (r: Position)
    requires i < |rs|
    ensures r.0 < |rs|
  {
    var k := if i == 0 then 0 else Next(|rs|, i);
    (k, rs[k].start)
  }

  function NextSector(rs: seq<Range>, i: nat, offset: nat, blocksize: nat): (r: Position)
    requires i < |rs|
    ensures r.0 < |rs|
  {
    if i == 0 then (i, offset)
    else if U64(offset + blocksize) <= rs[i].end then (i, U64(offset + blocksize))
    else NextHeader(rs, i)
  }

  function PrevHeader(rs: seq<Range>, i: nat, blocksize: nat): (r: Position)
    requires i < |rs|
    ensures r.0 < |rs|
  {
    var k := if i == 0 then 0 else Prev(|rs|, i);
    (k, U64(rs[k].end + 1 - blocksize))
  }

  function PrevSector(rs: seq<Range>, i: nat, offset: nat, blocksize: nat): (r: Position)
    requires i < |rs|
    ensures r.0 < |rs|
  {
    if i == 0 then (i, offset)
    else if offset >= U64(rs[i].start + blocksize) then (i, U64(offset - blocksize))
    else PrevHeader(rs, i, blocksize)
  }

  /** The pointers *current_search_space and *offset. */
  class Cursor {
    var space: ListHead<Range>
    var offset: nat

    constructor (space: ListHead<Range>, offset: nat)
      ensures this.space == space && this.offset == offset
    {
      this.space := space;
      this.offset := offset;
    }

    ghost predicate At(s: seq<ListHead<Range>>, i: nat)
      reads this, s
    {
      IsRing(s) && i < |s| && space == s[i]
    }

    /** get_next_header */
    method GetNextHeader(list: ListHead<Range>, ghost s: seq<ListHead<Range>>, ghost i: nat)
      requires At(s, i) && list == s[0]
      modifies this
      ensures var r := NextHeader(Spaces(s), i); At(s, r.0) && offset == r.1
    {
      hide IsRing, Spaces, Succ, Pred, Next, Prev;
      Links(s, i);
      NextIs(s, i);
      if space != list {
        space := space.next;
      }
      offset := space.entry.start;
    }

    /** get_next_sector */
    method GetNextSector(list: ListHead<Range>, blocksize: nat, ghost s: seq<ListHead<Range>>, ghost i: nat)
      requires At(s, i) && list == s[0]
      modifies this
      ensures var r := NextSector(Spaces(s), i, old(offset), blocksize); At(s, r.0) && offset == r.1
    {
      hide IsRing, Spaces, Succ, Pred, Next, Prev;
      Links(s, i);
      NextIs(s, i);
      if space == list {
        return;
      }
      if U64(offset + blocksize) <= space.entry.end {
        offset := U64(offset + blocksize);
      } else {
        GetNextHeader(list, s, i);
      }
    }

    /** get_prev_header */
    method GetPrevHeader(list: ListHead<Range>, blocksize: nat, ghost s: seq<ListHead<Range>>, ghost i: nat)
      requires At(s, i) && list == s[0]
      modifies this
      ensures var r := PrevHeader(Spaces(s), i, blocksize); At(s, r.0) && offset == r.1
    {
      hide IsRing, Spaces, Succ, Pred, Next, Prev;
      Links(s, i);
      NextIs(s, i);
      if space != list {
        space := space.prev;
      }
      offset := U64(space.entry.end + 1 - blocksize);
    }

    /** get_prev_sector */
    method GetPrevSector(list: ListHead<Range>, blocksize: nat, ghost s: seq<ListHead<Range>>, ghost i: nat)
      requires At(s, i) && list == s[0]
      modifies this
      ensures var r := PrevSector(Spaces(s), i, old(offset), blocksize); At(s, r.0) && offset == r.1
    {
      hide IsRing, Spaces, Succ, Pred, Next, Prev;
      Links(s, i);
      NextIs(s, i);
      if space == list {
        return;
      }
      if offset >= U64(space.entry.start + blocksize) {
        offset := U64(offset - blocksize);
      } else {
        GetPrevHeader(list, blocksize, s, i);
      }
    }
  }

  // ---- the blocks of a search space ----

  /** A nonempty range of whole blocks. Its end stays below the largest offset, from where a step would wrap around. */
  ghost predicate RangeOk(r: Range, blocksize: nat) {
    && blocksize > 0 && r.start <= r.end < 0xFFFF_FFFF_FFFF_FFFF
    && (r.end + 1 - r.start) % blocksize == 0
  }

  ghost predicate SpacesOk(rs: seq<Range>, blocksize: nat) {
    |rs| > 0 && blocksize > 0 && forall i: nat :: 0 < i < |rs| ==> RangeOk(rs[i], blocksize)
  }

  function Blocks(r: Range, blocksize: nat): nat
    requires blocksize > 0
  {
    if r.start <= r.end then (r.end + 1 - r.start) / blocksize else 0
  }

  function RangeBlocks(rs: seq<Range>, blocksize: nat, i: nat): (b: seq<Position>)
    requires i < |rs| && blocksize > 0
    ensures |b| == Blocks(rs[i], blocksize)
  {
    seq(Blocks(rs[i], blocksize), j requires 0 <= j => (i, rs[i].start + j * blocksize))
  }

  /** The blocks of the first n spaces of the ring, in list order; the head has none. */
  function AllBlocks(rs: seq<Range>, blocksize: nat, n: nat): seq<Position>
    requires n <= |rs| && blocksize > 0
  {
    if n <= 1 then [] else AllBlocks(rs, blocksize, n - 1) + RangeBlocks(rs, blocksize, n - 1)
  }

  lemma BlockSteps(r: Range, blocksize: nat, j: nat)
    requires RangeOk(r, blocksize) && j < Blocks(r, blocksize)
    ensures Blocks(r, blocksize) > 0
    ensures (j + 1) * blocksize == j * blocksize + blocksize
    ensures j + 1 < Blocks(r, blocksize) ==> r.start + (j + 1) * blocksize + blocksize <= r.end + 1
    ensures j + 1 == Blocks(r, blocksize) ==> r.start + (j + 1) * blocksize == r.end + 1
  {
    var n := Blocks(r, blocksize);
    assert r.end + 1 - r.start == n * blocksize;
    Distribute(j, 1, blocksize);
    if j + 1 < n {
      MulMono(j + 2, n, blocksize);
      Distribute(j + 1, 1, blocksize);
    }
  }

  lemma NoWrap(x: int)
    requires 0 <= x < 0x1_0000_0000_0000_0000
    ensures U64(x) == x
  {}

  /** Inside a range, a step goes to the next block; from its last block, to the next space. */
  lemma StepForward(rs: seq<Range>, blocksize: nat, i: nat, j: nat)
    requires SpacesOk(rs, blocksize) && 0 < i < |rs| && j < Blocks(rs[i], blocksize)
    ensures NextSector(rs, i, rs[i].start + j * blocksize, blocksize)
      == if j + 1 < Blocks(rs[i], blocksize) then (i, rs[i].start + (j + 1) * blocksize) else NextHeader(rs, i)
  {
    hide Blocks, U64;
    assert RangeOk(rs[i], blocksize);
    BlockSteps(rs[i], blocksize, j);
    NoWrap(rs[i].start + j * blocksize + blocksize);
  }

  /** A step back undoes it. */
  lemma StepBack(rs: seq<Range>, blocksize: nat, i: nat, j: nat)
    requires SpacesOk(rs, blocksize) && 0 < i < |rs| && j < Blocks(rs[i], blocksize)
    ensures PrevSector(rs, i, rs[i].start + j * blocksize, blocksize)
      == if j > 0 then (i, rs[i].start + (j - 1) * blocksize) else PrevHeader(rs, i, blocksize)
  {
    hide Blocks, U64;
    assert RangeOk(rs[i], blocksize);
    BlockSteps(rs[i], blocksize, j);
    BlockSteps(rs[i], blocksize, 0);
    NoWrap(rs[i].start + blocksize);
    if j > 0 {
      BlockSteps(rs[i], blocksize, j - 1);
      MulMono(1, j, blocksize);
      NoWrap(rs[i].start + j * blocksize - blocksize);
    }
  }

  lemma LastBlock(rs: seq<Range>, blocksize: nat, i: nat)
    requires SpacesOk(rs, blocksize) && 0 < i < |rs|
    ensures Blocks(rs[i], blocksize) > 0
    ensures U64(rs[i].end + 1 - blocksize) == rs[i].start + (Blocks(rs[i], blocksize) - 1) * blocksize
  {
    hide U64;
    assert RangeOk(rs[i], blocksize);
    var n := Blocks(rs[i], blocksize);
    assert rs[i].end + 1 - rs[i].start == n * blocksize;
    if n == 0 { assert false; }
    hide Blocks;
    BlockSteps(rs[i], blocksize, n - 1);
    NoWrap(rs[i].end + 1 - blocksize);
  }

  lemma AllBlocksStep(rs: seq<Range>, blocksize: nat, n: nat, k: nat)
    requires 2 <= n <= |rs| && blocksize > 0 && k < |AllBlocks(rs, blocksize, n)|
    ensures var a, m := AllBlocks(rs, blocksize, n - 1), |AllBlocks(rs, blocksize, n - 1)|;
      && |AllBlocks(rs, blocksize, n)| == m + Blocks(rs[n - 1], blocksize)
      && (k < m ==> AllBlocks(rs, blocksize, n)[k] == a[k])
      && (k >= m ==> AllBlocks(rs, blocksize, n)[k] == (n - 1, rs[n - 1].start + (k - m) * blocksize))
      && (k == m ==> AllBlocks(rs, blocksize, n)[k] == (n - 1, rs[n - 1].start))
  {
    hide Blocks;
  }

  /** Where the cursor arrives after the blocks of the first n spaces. */
  function After(rs: seq<Range>, n: nat): Position
    requires 0 < n <= |rs|
  {
    var k := if n < |rs| then n else 0;
    (k, rs[k].start)
  }

  lemma AfterSteps(rs: seq<Range>, n: nat)
    requires 2 <= n <= |rs|
    ensures After(rs, n - 1) == (n - 1, rs[n - 1].start) && After(rs, n) == NextHeader(rs, n - 1)
  {}

  /** get_next_sector leads from each block to the next one of the list, and from the last one to the head. */
  lemma {:induction false} WalkForward(rs: seq<Range>, blocksize: nat, n: nat, k: nat)
    requires SpacesOk(rs, blocksize) && 0 < n <= |rs| && k < |AllBlocks(rs, blocksize, n)|
    ensures var b := AllBlocks(rs, blocksize, n);
      b[k].0 < |rs| && NextSector(rs, b[k].0, b[k].1, blocksize) == if k + 1 < |b| then b[k + 1] else After(rs, n)
  {
    hide NextSector, NextHeader, After, Blocks, AllBlocks, SpacesOk;
    SpacesPositive(rs, blocksize);
    if n == 1 {
      AllBlocksEmpty(rs, blocksize);
    } else {
      var b, m := AllBlocks(rs, blocksize, n), |AllBlocks(rs, blocksize, n - 1)|;
      LastBlock(rs, blocksize, n - 1);
      AfterSteps(rs, n);
      AllBlocksStep(rs, blocksize, n, k);
      if k + 1 < |b| { AllBlocksStep(rs, blocksize, n, k + 1); }
      if k < m {
        WalkForward(rs, blocksize, n - 1, k);
      } else {
        StepForward(rs, blocksize, n - 1, k - m);
      }
    }
  }

  lemma SpacesPositive(rs: seq<Range>, blocksize: nat)
    requires SpacesOk(rs, blocksize)
    ensures |rs| > 0 && blocksize > 0
  {}

  lemma AllBlocksEmpty(rs: seq<Range>, blocksize: nat)
    requires |rs| > 0 && blocksize > 0
    ensures AllBlocks(rs, blocksize, 1) == []
  {}

  /** get_prev_sector leads from each block back to the one before it, and from the first one to the head. */
  lemma {:induction false} WalkBack(rs: seq<Range>, blocksize: nat, n: nat, k: nat)
    requires SpacesOk(rs, blocksize) && 0 < n <= |rs| && k < |AllBlocks(rs, blocksize, n)|
    ensures var b := AllBlocks(rs, blocksize, n);
      && b[k].0 < |rs|
      && PrevSector(rs, b[k].0, b[k].1, blocksize) == (if k > 0 then b[k - 1] else (0, U64(rs[0].end + 1 - blocksize)))
      && b[|b| - 1] == (n - 1, U64(rs[n - 1].end + 1 - blocksize))
  {
    hide PrevSector, Blocks, AllBlocks, U64;
    if n == 1 {
      AllBlocksEmpty(rs, blocksize);
    } else {
      var b := AllBlocks(rs, blocksize, n);
      var m := |AllBlocks(rs, blocksize, n - 1)|;
      LastBlock(rs, blocksize, n - 1);
      AllBlocksStep(rs, blocksize, n, k);
      AllBlocksStep(rs, blocksize, n, |b| - 1);
      if k > 0 { AllBlocksStep(rs, blocksize, n, k - 1); }
      if k < m {
        WalkBack(rs, blocksize, n - 1, k);
      } else {
        StepBack(rs, blocksize, n - 1, k - m);
        if m > 0 {
          WalkBack(rs, blocksize, n - 1, m - 1);
        } else if n > 2 {
          LastBlock(rs, blocksize, n - 2);
          AllBlocksLength(rs, blocksize, n - 1);
        }
      }
    }
  }

  lemma AllBlocksLength(rs: seq<Range>, blocksize: nat, n: nat)
    requires 2 <= n <= |rs| && blocksize > 0
    ensures |AllBlocks(rs, blocksize, n)| >= Blocks(rs[n - 1], blocksize)
  {}

  /** Between blocks, get_prev_sector undoes get_next_sector. */
  lemma PrevUndoesNext(rs: seq<Range>, blocksize: nat, k: nat)
    requires SpacesOk(rs, blocksize) && k + 1 < |AllBlocks(rs, blocksize, |rs|)|
    ensures var b := AllBlocks(rs, blocksize, |rs|);
      && b[k].0 < |rs|
      && var next := NextSector(rs, b[k].0, b[k].1, blocksize);
      PrevSector(rs, next.0, next.1, blocksize) == b[k]
  {
    hide NextSector, PrevSector, AllBlocks;
    WalkForward(rs, blocksize, |rs|, k);
    WalkBack(rs, blocksize, |rs|, k + 1);
  }

  /** Blocks of the walk never overlap: they ascend within a range, and ranges come in list order. */
  lemma {:induction false} BlocksAscend(rs: seq<Range>, blocksize: nat, n: nat, k: nat, l: nat)
    requires SpacesOk(rs, blocksize) && 0 < n <= |rs| && k < l < |AllBlocks(rs, blocksize, n)|
    ensures var b := AllBlocks(rs, blocksize, n);
      && 0 < b[k].0 <= b[l].0 < n
      && (b[k].0 == b[l].0 ==> b[k].1 + blocksize <= b[l].1)
  {
    hide Blocks, AllBlocks;
    if n == 1 {
      AllBlocksEmpty(rs, blocksize);
    } else {
      var m := |AllBlocks(rs, blocksize, n - 1)|;
      AllBlocksStep(rs, blocksize, n, k);
      AllBlocksStep(rs, blocksize, n, l);
      if l < m {
        BlocksAscend(rs, blocksize, n - 1, k, l);
      } else if k < m {
        BlockInside(rs, blocksize, n - 1, k);
      } else {
        MulMono(k - m + 1, l - m, blocksize);
        Distribute(k - m, 1, blocksize);
      }
    }
  }

  lemma {:induction false} BlockInside(rs: seq<Range>, blocksize: nat, n: nat, k: nat)
    requires SpacesOk(rs, blocksize) && 0 < n <= |rs| && k < |AllBlocks(rs, blocksize, n)|
    ensures 0 < AllBlocks(rs, blocksize, n)[k].0 < n
  {
    hide Blocks, AllBlocks;
    if n == 1 {
      AllBlocksEmpty(rs, blocksize);
    } else {
      AllBlocksStep(rs, blocksize, n, k);
      if k < |AllBlocks(rs, blocksize, n - 1)| { BlockInside(rs, blocksize, n - 1, k); }
    }
  }

  lemma ByteBlock(r: Range, blocksize: nat, x: nat) returns (j: nat)
    requires RangeOk(r, blocksize) && r.start <= x <= r.end
    ensures j < Blocks(r, blocksize) && r.start + j * blocksize <= x < r.start + j * blocksize + blocksize
  {
    j := (x - r.start) / blocksize;
    var c := Blocks(r, blocksize);
    assert x - r.start == j * blocksize + (x - r.start) % blocksize;
    assert r.end + 1 - r.start == c * blocksize;
    if j >= c { MulMono(c, j, blocksize); }
  }

  /** Every byte of every range lies in a block of the walk. */
  lemma {:induction false} ByteVisited(rs: seq<Range>, blocksize: nat, n: nat, i: nat, x: nat) returns (k: nat)
    requires SpacesOk(rs, blocksize) && 0 < i < n <= |rs| && rs[i].start <= x <= rs[i].end
    ensures k < |AllBlocks(rs, blocksize, n)|
    ensures var b := AllBlocks(rs, blocksize, n)[k]; b.0 == i && b.1 <= x < b.1 + blocksize
  {
    hide AllBlocks, Blocks;
    AllBlocksLength(rs, blocksize, n);
    LastBlock(rs, blocksize, n - 1);
    AllBlocksStep(rs, blocksize, n, 0);
    if i < n - 1 {
      k := ByteVisited(rs, blocksize, n - 1, i, x);
    } else {
      var j := ByteBlock(rs[i], blocksize, x);
      k := |AllBlocks(rs, blocksize, n - 1)| + j;
    }
    AllBlocksStep(rs, blocksize, n, k);
  }

  /** A whole run of the cursor, from the first space until it is back at the head: it meets every block once, in list
      order. */
  method VisitAll(list: ListHead<Range>, blocksize: nat, ghost s: seq<ListHead<Range>>) returns (visited: seq<nat>)
    requires |s| > 0 && IsRing(s) && list == s[0] && blocksize > 0 && SpacesOk(Spaces(s), blocksize)
    ensures var b := AllBlocks(Spaces(s), blocksize, |s|);
      |visited| == |b| && forall k :: 0 <= k < |b| ==> visited[k] == b[k].1
  {
    hide IsRing, AllBlocks, NextSector, Spaces, SpacesOk;
    visited := [];
    ghost var rs := Spaces(s);
    ghost var b := AllBlocks(rs, blocksize, |s|);
    Links(s, 0);
    NextIs(s, 0);
    var cursor := new Cursor(list.next, list.next.entry.start);
    ghost var i := Next(|s|, 0);
    FirstBlock(rs, blocksize);
    while cursor.space != list
      invariant cursor.At(s, i) && |visited| <= |b|
      invariant (i, cursor.offset) == if |visited| < |b| then b[|visited|] else After(rs, |rs|)
      invariant forall k :: 0 <= k < |visited| ==> visited[k] == b[k].1
      decreases |b| - |visited|
    {
      WalkForward(rs, blocksize, |rs|, |visited|);
      visited := visited + [cursor.offset];
      cursor.GetNextSector(list, blocksize, s, i);
      i := NextSector(rs, i, visited[|visited| - 1], blocksize).0;
    }
    Links(s, i);
    if |visited| < |b| { BlockInside(rs, blocksize, |rs|, |visited|); }
  }

  lemma FirstBlock(rs: seq<Range>, blocksize: nat)
    requires SpacesOk(rs, blocksize)
    ensures |rs| == 1 ==> AllBlocks(rs, blocksize, |rs|) == []
    ensures |rs| > 1 ==> AllBlocks(rs, blocksize, |rs|) != [] && AllBlocks(rs, blocksize, |rs|)[0] == (1, rs[1].start)
  {
    if |rs| > 1 { FirstBlockOf(rs, blocksize, |rs|); }
  }

  lemma {:induction false} FirstBlockOf(rs: seq<Range>, blocksize: nat, n: nat)
    requires SpacesOk(rs, blocksize) && 2 <= n <= |rs|
    ensures AllBlocks(rs, blocksize, n) != [] && AllBlocks(rs, blocksize, n)[0] == (1, rs[1].start)
  {
    hide AllBlocks, Blocks;
    LastBlock(rs, blocksize, n - 1);
    AllBlocksLength(rs, blocksize, n);
    AllBlocksStep(rs, blocksize, n, 0);
    if n == 2 {
      AllBlocksEmpty(rs, blocksize);
    } else {
      FirstBlockOf(rs, blocksize, n - 1);
    }
  }

  // ---- splitting a range (psearch.h) ----

  /** What file_add_data makes of range i: from offset on it holds content. */
  function AddData(rs: seq<Range>, i: nat, offset: nat, content: nat): seq<Range>
    requires i < |rs|
  {
    var r := rs[i];
    if !(r.start <= offset <= r.end) then rs
    else if r.start == offset then rs[i := r.(data := content)]
    else if r.data == content then rs
    else rs[..i] + [r.(end := offset - 1), Range(offset, r.end, content, None)] + rs[i + 1..]
  }

  lemma AddDataCases(rs: seq<Range>, i: nat, offset: nat, content: nat)
    requires i < |rs|
    ensures var r, t := rs[i], AddData(rs, i, offset, content);
      if !(r.start <= offset <= r.end) then t == rs
      else if r.start == offset then t == rs[i := r.(data := content)]
      else if r.data == content then t == rs
      else t == InsertAt(rs[i := r.(end := offset - 1)], i + 1, Range(offset, r.end, content, None))
  {}

  /** file_add_data. Returns the node whose range starts with the content added. */
  method FileAddData(data: ListHead<Range>, offset: nat, content: nat, ghost s: seq<ListHead<Range>>, ghost i: nat)
    returns (r: ListHead<Range>, ghost t: seq<ListHead<Range>>)
    requires IsRing(s) && i < |s| && data == s[i]
    modifies s
    ensures IsRing(t) && ((t == s && r == data) || (t == InsertAt(s, i + 1, r) && fresh(r)))
    ensures Spaces(t) == AddData(old(Spaces(s)), i, offset, content)
    ensures r in t && (old(data.entry.start) <= offset <= old(data.entry.end) ==> r.entry.data == content)
  {
    hide IsRing, InsertAt, Spaces, AddData, Succ, Pred;
    Links(s, i);
    AddDataCases(Spaces(s), i, offset, content);
    r, t := data, s;
    if !(data.entry.start <= offset && offset <= data.entry.end) {
      return;
    }
    if data.entry.start == offset {
      SetEntry(data, data.entry.(data := content), s, i);
      return;
    }
    if data.entry.data == content {
      return;
    }
    var next := new ListHead<Range>(data.entry);
    SetEntry(data, data.entry.(end := offset - 1), s, i);
    next.entry := next.entry.(start := offset, fileStat := None, data := content);
  label Cut:
    ListAdd(next, data, s, i);
    SpacesInserted(s, i + 1, next);
    SameSpaces@Cut(s);
    r, t := next, InsertAt(s, i + 1, next);
    InsertedHas(s, i + 1, next);
  }

  /** An assignment to the struct that node s[i] is embedded in. */
  method SetEntry(node: ListHead<Range>, entry: Range, ghost s: seq<ListHead<Range>>, ghost i: nat)
    requires IsRing(s) && i < |s| && node == s[i]
    modifies node`entry
    ensures IsRing(s) && node.entry == entry && Spaces(s) == old(Spaces(s))[i := entry]
  {
    hide IsRing;
    node.entry := entry;
    StillRing(s);
    forall k: nat | k < |s| ensures Spaces(s)[k] == old(Spaces(s))[i := entry][k] { OneNode(s, i, k); }
  }

  twostate lemma SameSpaces(s: seq<ListHead<Range>>)
    requires forall k: nat :: k < |s| ==> s[k].entry == old(s[k].entry)
    ensures Spaces(s) == old(Spaces(s))
  {}

  lemma SpacesInserted(s: seq<ListHead<Range>>, k: nat, x: ListHead<Range>)
    requires k <= |s|
    ensures Spaces(InsertAt(s, k, x)) == InsertAt(Spaces(s), k, x.entry)
  {}

  lemma InsertedHas<X>(s: seq<X>, k: nat, x: X)
    requires k <= |s|
    ensures x in InsertAt(s, k, x)
  {
    assert InsertAt(s, k, x)[k] == x;
  }

  // ---- what the split keeps ----

  /** The ranges behind the head are nonempty, disjoint and in ascending order. */
  ghost predicate Ascending(rs: seq<Range>) {
    && (forall i: nat :: 0 < i < |rs| ==> rs[i].start <= rs[i].end)
    && (forall i: nat, j: nat :: 0 < i < j < |rs| ==> rs[i].end < rs[j].start)
  }

  ghost predicate Holds(r: Range, x: nat) {
    r.start <= x <= r.end
  }

  ghost predicate Covered(rs: seq<Range>, x: nat) {
    exists i: nat :: 0 < i < |rs| && Holds(rs[i], x)
  }

  /** Byte x belongs to a range with content c. */
  ghost predicate Tagged(rs: seq<Range>, x: nat, c: nat) {
    exists i: nat :: 0 < i < |rs| && Holds(rs[i], x) && rs[i].data == c
  }

  lemma AddDataIndex(rs: seq<Range>, i: nat, offset: nat, content: nat, k: nat)
    requires 0 < i < |rs| && rs[i].start < offset <= rs[i].end && rs[i].data != content && k <= |rs|
    ensures var t := AddData(rs, i, offset, content);
      && |t| == |rs| + 1
      && t[k] == (if k < i then rs[k] else if k == i then rs[i].(end := offset - 1)
                  else if k == i + 1 then Range(offset, rs[i].end, content, None) else rs[k - 1])
  {}

  lemma AddDataAscending(rs: seq<Range>, i: nat, offset: nat, content: nat)
    requires 0 < i < |rs| && Ascending(rs)
    ensures Ascending(AddData(rs, i, offset, content))
  {
    var t := AddData(rs, i, offset, content);
    if rs[i].start < offset <= rs[i].end && rs[i].data != content {
      hide AddData;
      AddDataIndex(rs, i, offset, content, 0);
      forall j: nat | 0 < j < |t| ensures t[j].start <= t[j].end { AddDataIndex(rs, i, offset, content, j); }
      forall j: nat, k: nat | 0 < j < k < |t| ensures t[j].end < t[k].start {
        AddDataIndex(rs, i, offset, content, j);
        AddDataIndex(rs, i, offset, content, k);
      }
    }
  }

  lemma TagOf(rs: seq<Range>, k: nat, x: nat, c: nat)
    requires Ascending(rs) && 0 < k < |rs| && Holds(rs[k], x)
    ensures Covered(rs, x) && (Tagged(rs, x, c) <==> c == rs[k].data)
  {
    if j: nat :| 0 < j < |rs| && Holds(rs[j], x) && rs[j].data == c {
      assert j == k;
    }
  }

  /** The range that holds x afterwards, and its content. */
  lemma Image(rs: seq<Range>, i: nat, offset: nat, content: nat, x: nat, k: nat) returns (l: nat)
    requires 0 < i < |rs| && 0 < k < |rs| && Holds(rs[k], x)
    ensures var t := AddData(rs, i, offset, content);
      && 0 < l < |t| && Holds(t[l], x)
      && t[l].data == if k == i && Holds(rs[i], offset) && offset <= x then content else rs[k].data
  {
    l := k;
    if rs[i].start < offset <= rs[i].end && rs[i].data != content {
      if k > i || (k == i && offset <= x) { l := k + 1; }
      AddDataIndex(rs, i, offset, content, l);
    }
  }

  lemma Preimage(rs: seq<Range>, i: nat, offset: nat, content: nat, x: nat, l: nat) returns (k: nat)
    requires 0 < i < |rs| && 0 < l < |AddData(rs, i, offset, content)| && Holds(AddData(rs, i, offset, content)[l], x)
    ensures 0 < k < |rs| && Holds(rs[k], x)
  {
    k := l;
    if rs[i].start < offset <= rs[i].end && rs[i].data != content {
      AddDataIndex(rs, i, offset, content, 0);
      AddDataIndex(rs, i, offset, content, l);
      if l > i { k := l - 1; }
    }
  }

  /** Exactly the bytes from offset to the end of the range are retagged; all others keep their content, and the same
      bytes are covered as before. */
  lemma AddDataRetags(rs: seq<Range>, i: nat, offset: nat, content: nat, x: nat, c: nat)
    requires 0 < i < |rs| && Ascending(rs)
    ensures var t := AddData(rs, i, offset, content);
      && (Covered(t, x) <==> Covered(rs, x))
      && (Tagged(t, x, c)
          <==> if Holds(rs[i], offset) && offset <= x <= rs[i].end then c == content else Tagged(rs, x, c))
  {
    hide AddData;
    AddDataAscending(rs, i, offset, content);
    var t := AddData(rs, i, offset, content);
    if Holds(rs[i], offset) && offset <= x <= rs[i].end { assert Holds(rs[i], x); }
    if k: nat :| 0 < k < |rs| && Holds(rs[k], x) {
      var l := Image(rs, i, offset, content, x, k);
      TagOf(rs, k, x, c);
      TagOf(t, l, x, c);
      if Holds(rs[i], x) { assert k == i by { hide Covered; } }
    } else {
      if l: nat :| 0 < l < |t| && Holds(t[l], x) {
        var k := Preimage(rs, i, offset, content, x, l);
        assert false;
      }
    }
  }

  // ---- the walk over split ranges ----

  /** Offsets of the blocks of a range, and of the blocks of the spaces from position n on. */
  function Offsets(r: Range, blocksize: nat): (b: seq<nat>)
    requires blocksize > 0
    ensures |b| == Blocks(r, blocksize)
  {
    seq(Blocks(r, blocksize), j requires 0 <= j => r.start + j * blocksize)
  }

  function OffsetsFrom(rs: seq<Range>, blocksize: nat, n: nat): seq<nat>
    requires blocksize > 0
    decreases |rs| - n
  {
    if n >= |rs| then [] else Offsets(rs[n], blocksize) + OffsetsFrom(rs, blocksize, n + 1)
  }

  lemma SplitCounts(r: Range, blocksize: nat, offset: nat) returns (a: nat)
    requires RangeOk(r, blocksize) && r.start < offset <= r.end && (offset - r.start) % blocksize == 0
    ensures RangeOk(r.(end := offset - 1), blocksize) && RangeOk(r.(start := offset), blocksize)
    ensures a == Blocks(r.(end := offset - 1), blocksize) && offset == r.start + a * blocksize
    ensures Blocks(r, blocksize) == a + Blocks(r.(start := offset), blocksize)
  {
    a := (offset - r.start) / blocksize;
    var n := (r.end + 1 - r.start) / blocksize;
    assert offset - r.start == a * blocksize;
    assert r.end + 1 - r.start == n * blocksize;
    Distribute(n - a, a, blocksize);
    if n < a { MulMono(n, a, blocksize); }
    DivModUnique(r.end + 1 - offset, blocksize, n - a, 0);
  }

  lemma OffsetsSplit(r: Range, blocksize: nat, offset: nat)
    requires RangeOk(r, blocksize) && r.start < offset <= r.end && (offset - r.start) % blocksize == 0
    ensures Offsets(r, blocksize) == Offsets(r.(end := offset - 1), blocksize) + Offsets(r.(start := offset), blocksize)
  {
    hide Blocks, RangeOk;
    var a := SplitCounts(r, blocksize, offset);
    forall j: nat | a <= j < Blocks(r, blocksize)
      ensures Offsets(r, blocksize)[j] == Offsets(r.(start := offset), blocksize)[j - a]
    {
      Distribute(a, j - a, blocksize);
    }
  }

  lemma OffsetsStep(rs: seq<Range>, blocksize: nat, n: nat)
    requires blocksize > 0
    ensures OffsetsFrom(rs, blocksize, n)
      == if n >= |rs| then [] else Offsets(rs[n], blocksize) + OffsetsFrom(rs, blocksize, n + 1)
  {}

  lemma {:induction false} OffsetsShift(rs: seq<Range>, ts: seq<Range>, blocksize: nat, n: nat)
    requires blocksize > 0 && |ts| == |rs| + 1 && n <= |rs| && forall k :: n <= k < |rs| ==> ts[k + 1] == rs[k]
    ensures OffsetsFrom(ts, blocksize, n + 1) == OffsetsFrom(rs, blocksize, n)
    decreases |rs| - n
  {
    hide Offsets, OffsetsFrom;
    OffsetsStep(rs, blocksize, n);
    OffsetsStep(ts, blocksize, n + 1);
    if n < |rs| { OffsetsShift(rs, ts, blocksize, n + 1); }
  }

  lemma {:induction false} OffsetsSame(rs: seq<Range>, ts: seq<Range>, blocksize: nat, n: nat)
    requires blocksize > 0 && |ts| == |rs| && n <= |rs|
    requires forall k :: n <= k < |rs| ==> ts[k].start == rs[k].start && ts[k].end == rs[k].end
    ensures OffsetsFrom(ts, blocksize, n) == OffsetsFrom(rs, blocksize, n)
    decreases |rs| - n
  {
    if n < |rs| { OffsetsSame(rs, ts, blocksize, n + 1); }
  }

  /** Splitting at a block boundary changes nothing about the walk: the same blocks are visited in the same order. */
  lemma {:induction false} SplitKeepsWalk(rs: seq<Range>, i: nat, offset: nat, content: nat, blocksize: nat, n: nat)
    requires SpacesOk(rs, blocksize) && 0 < n <= i < |rs|
    requires Holds(rs[i], offset) ==> (offset - rs[i].start) % blocksize == 0
    ensures OffsetsFrom(AddData(rs, i, offset, content), blocksize, n) == OffsetsFrom(rs, blocksize, n)
    decreases i - n
  {
    hide AddData, Offsets, OffsetsFrom, SpacesOk;
    SpacesAre(rs, blocksize, i);
    if rs[i].start < offset <= rs[i].end && rs[i].data != content {
      if n < i {
        var t := AddData(rs, i, offset, content);
        OffsetsStep(rs, blocksize, n);
        OffsetsStep(t, blocksize, n);
        AddDataIndex(rs, i, offset, content, n);
        SplitKeepsWalk(rs, i, offset, content, blocksize, n + 1);
      } else {
        SplitHere(rs, i, offset, content, blocksize);
      }
    } else {
      AddDataSame(rs, i, offset, content);
      OffsetsSame(rs, AddData(rs, i, offset, content), blocksize, n);
    }
  }

  lemma AddDataSame(rs: seq<Range>, i: nat, offset: nat, content: nat)
    requires i < |rs| && !(rs[i].start < offset <= rs[i].end && rs[i].data != content)
    ensures var t := AddData(rs, i, offset, content);
      |t| == |rs| && forall k :: 0 <= k < |rs| ==> t[k].start == rs[k].start && t[k].end == rs[k].end
  {}

  /** The two parts of the range that is split have its blocks. */
  lemma SplitHere(rs: seq<Range>, i: nat, offset: nat, content: nat, blocksize: nat)
    requires 0 < i < |rs| && RangeOk(rs[i], blocksize) && (offset - rs[i].start) % blocksize == 0
    requires rs[i].start < offset <= rs[i].end && rs[i].data != content
    ensures OffsetsFrom(AddData(rs, i, offset, content), blocksize, i) == OffsetsFrom(rs, blocksize, i)
  {
    hide AddData, Offsets, OffsetsFrom, RangeOk;
    var t, low, high := AddData(rs, i, offset, content), rs[i].(end := offset - 1), rs[i].(start := offset);
    SplitCopies(rs, i, offset, content);
    RangeOkPositive(rs[i], blocksize);
    OffsetsStep(rs, blocksize, i);
    OffsetsStep(t, blocksize, i);
    OffsetsStep(t, blocksize, i + 1);
    OffsetsAlike(t[i], low, blocksize);
    OffsetsAlike(t[i + 1], high, blocksize);
    OffsetsSplit(rs[i], blocksize, offset);
    OffsetsShift(rs, t, blocksize, i + 1);
  }

  lemma RangeOkPositive(r: Range, blocksize: nat)
    requires RangeOk(r, blocksize)
    ensures blocksize > 0
  {}

  lemma SplitCopies(rs: seq<Range>, i: nat, offset: nat, content: nat)
    requires 0 < i < |rs| && rs[i].start < offset <= rs[i].end && rs[i].data != content
    ensures var t := AddData(rs, i, offset, content);
      && |t| == |rs| + 1
      && t[i].start == rs[i].start && t[i].end == offset - 1 && t[i + 1].start == offset && t[i + 1].end == rs[i].end
      && forall k :: i + 1 <= k < |rs| ==> t[k + 1] == rs[k]
  {
    hide AddData;
    AddDataIndex(rs, i, offset, content, i);
    AddDataIndex(rs, i, offset, content, i + 1);
    forall k: nat | i + 1 <= k < |rs| ensures AddData(rs, i, offset, content)[k + 1] == rs[k] {
      AddDataIndex(rs, i, offset, content, k + 1);
    }
  }

  lemma OffsetsAlike(a: Range, b: Range, blocksize: nat)
    requires blocksize > 0 && a.start == b.start && a.end == b.end
    ensures Offsets(a, blocksize) == Offsets(b, blocksize)
  {}

  lemma SpacesAre(rs: seq<Range>, blocksize: nat, i: nat)
    requires SpacesOk(rs, blocksize) && 0 < i < |rs|
    ensures RangeOk(rs[i], blocksize) && blocksize > 0
  {}

  lemma SplitKeepsSpaces(rs: seq<Range>, i: nat, offset: nat, content: nat, blocksize: nat)
    requires SpacesOk(rs, blocksize) && 0 < i < |rs|
    requires Holds(rs[i], offset) ==> (offset - rs[i].start) % blocksize == 0
    ensures SpacesOk(AddData(rs, i, offset, content), blocksize)
  {
    var t := AddData(rs, i, offset, content);
    if rs[i].start < offset <= rs[i].end && rs[i].data != content {
      hide AddData;
      var a := SplitCounts(rs[i], blocksize, offset);
      hide RangeOk;
      AddDataIndex(rs, i, offset, content, 0);
      forall k: nat | 0 < k < |t| ensures RangeOk(t[k], blocksize) {
        AddDataIndex(rs, i, offset, content, k);
        if k == i { RangeOkAlike(t[k], rs[i].(end := offset - 1), blocksize); }
        if k == i + 1 { RangeOkAlike(t[k], rs[i].(start := offset), blocksize); }
      }
    }
  }

  lemma RangeOkAlike(a: Range, b: Range, blocksize: nat)
    requires RangeOk(b, blocksize) && a.start == b.start && a.end == b.end
    ensures RangeOk(a, blocksize)
  {}

  /** The offsets of the walk, block by block. */
  lemma {:induction false} OffsetsAreBlocks(rs: seq<Range>, blocksize: nat, n: nat)
    requires blocksize > 0 && 0 < n <= |rs|
    ensures var b, o, tail := AllBlocks(rs, blocksize, n), OffsetsFrom(rs, blocksize, 1), OffsetsFrom(rs, blocksize, n);
      && |o| == |b| + |tail| && o[|b|..] == tail
      && forall k :: 0 <= k < |b| ==> o[k] == b[k].1
  {
    hide Blocks, OffsetsFrom, AllBlocks;
    var o := OffsetsFrom(rs, blocksize, 1);
    AllBlocksEmpty(rs, blocksize);
    if n > 1 {
      OffsetsAreBlocks(rs, blocksize, n - 1);
      OffsetsStep(rs, blocksize, n - 1);
      var m, c := |AllBlocks(rs, blocksize, n - 1)|, Blocks(rs[n - 1], blocksize);
      var b := AllBlocks(rs, blocksize, n);
      AllBlocksIs(rs, blocksize, n);
      assert o[m..] == Offsets(rs[n - 1], blocksize) + OffsetsFrom(rs, blocksize, n);
      assert o[m + c..] == o[m..][c..];
      forall k: nat | m <= k < m + c ensures o[k] == b[k].1 { assert o[k] == o[m..][k - m]; }
    }
  }

  lemma AllBlocksIs(rs: seq<Range>, blocksize: nat, n: nat)
    requires 2 <= n <= |rs| && blocksize > 0
    ensures AllBlocks(rs, blocksize, n) == AllBlocks(rs, blocksize, n - 1) + RangeBlocks(rs, blocksize, n - 1)
  {}

  // ---- the order of ranges given on the command line (testdisk/src/phcli.c) ----

  /** Conversion to a 32-bit int. */
  function Int32(x: int): (r: int)
    ensures -0x8000_0000 <= r < 0x8000_0000
    ensures (x - r) % 0x1_0000_0000 == 0
  {
    var m := x % 0x1_0000_0000;
    if m < 0x8000_0000 then m else m - 0x1_0000_0000
  }

  /** spacerange_cmp: the difference of the ends is cut to an int. */
  function SpaceRangeCmp(a: Range, b: Range): int {
    if a.start < b.start then -1
    else if a.start > b.start then 1
    else Int32(a.end - b.end)
  }

  /** Two ranges count as equal, and the second is refused, exactly when they start together and their ends agree in the
      low 32 bits. */
  lemma SpaceRangeEqual(a: Range, b: Range)
    ensures SpaceRangeCmp(a, b) == 0 <==> a.start == b.start && (a.end - b.end) % 0x1_0000_0000 == 0
  {}

  /** The first comes before the second exactly when it starts before it, or they start together and the difference of
      the ends has its bit 31 set. Ends less than 2^31 apart are thus compared as they should be. */
  lemma SpaceRangeNear(a: Range, b: Range)
    ensures SpaceRangeCmp(a, b) < 0
      <==> a.start < b.start || (a.start == b.start && (a.end - b.end) % 0x1_0000_0000 >= 0x8000_0000)
    ensures -0x8000_0000 <= a.end - b.end < 0x8000_0000 ==>
      (SpaceRangeCmp(a, b) < 0 <==> a.start < b.start || (a.start == b.start && a.end < b.end))
  {}

  /** Taken by itself the comparison can refuse a range that is not there, and its order can run in a circle. */
  lemma SpaceRangeFaults()
    ensures var a, b := Range(0, 0, 1, None), Range(0, 0x1_0000_0000, 1, None); Refused(SpaceRangeCmp, b, [a]) && a != b
    ensures var a, b, c := Range(0, 0, 1, None), Range(0, 0x6000_0000, 1, None), Range(0, 0xC000_0000, 1, None);
      !Ordered(SpaceRangeCmp, iset{a, b, c})
  {
    var a, b, c := Range(0, 0, 1, None), Range(0, 0x6000_0000, 1, None), Range(0, 0xC000_0000, 1, None);
    assert SpaceRangeCmp(b, a) > 0 && SpaceRangeCmp(c, b) > 0 && SpaceRangeCmp(c, a) < 0;
  }

  /** Ranges that start together end less than 2^31 apart. */
  ghost predicate CloseEnds(s: iset<Range>) {
    forall a: Range, b: Range :: a in s && b in s && a.start == b.start ==> a.end - b.end < 0x8000_0000
  }

  /** Among such ranges it is a proper three-way comparison, so td_list_add_sorted_uniq refuses exactly the ranges that
      are present. */
  lemma SpaceRangeThreeWay(s: iset<Range>)
    requires CloseEnds(s)
    ensures ThreeWay(SpaceRangeCmp, s)
  {
    hide SpaceRangeCmp;
    forall a: Range, b: Range | a in s && b in s
      ensures SpaceRangeCmp(a, b) < 0 <==> a.start < b.start || (a.start == b.start && a.end < b.end)
      ensures SpaceRangeCmp(a, b) == 0 <==> a.start == b.start && a.end == b.end
    {
      SpaceRangeClose(a, b);
    }
  }

  lemma SpaceRangeClose(a: Range, b: Range)
    requires a.start == b.start ==> -0x8000_0000 < a.end - b.end < 0x8000_0000
    ensures SpaceRangeCmp(a, b) < 0 <==> a.start < b.start || (a.start == b.start && a.end < b.end)
    ensures SpaceRangeCmp(a, b) == 0 <==> a.start == b.start && a.end == b.end
  {}

  /** The range that stands for a group or inode number until it is converted. */
  function NumberRange(n: nat): Range {
    Range(n, n, 1, None)
  }

  function WithNumber(rs: seq<Range>, n: nat): seq<Range> {
    var r := NumberRange(n);
    if Refused(SpaceRangeCmp, r, rs) then rs else InsertAt(rs, UniquePosition(SpaceRangeCmp, r, rs), r)
  }

  /** Numbers given one after the other. */
  function WithNumbers(ns: seq<nat>): seq<Range> {
    if ns == [] then [] else WithNumber(WithNumbers(ns[..|ns| - 1]), ns[|ns| - 1])
  }

  // mode_init_space and the two commands that give numbers

  datatype InitSpace = Whole | Preinit | Ext2Group | Ext2Inode
  datatype NumberOption = GroupNumber(n: nat) | InodeNumber(n: nat)

  function KindOf(o: NumberOption): InitSpace {
    if o.GroupNumber? then Ext2Group else Ext2Inode
  }

  /** The first number decides which kind of number counts, unless the search space was given beforehand. */
  function NextMode(mode: InitSpace, o: NumberOption): InitSpace {
    if mode == Whole then KindOf(o) else mode
  }

  function AfterOption(mode: InitSpace, rs: seq<Range>, o: NumberOption): (InitSpace, seq<Range>) {
    (NextMode(mode, o), if NextMode(mode, o) == KindOf(o) then WithNumber(rs, o.n) else rs)
  }

  function AfterOptions(rs: seq<Range>, os: seq<NumberOption>): (InitSpace, seq<Range>) {
    if os == [] then (if rs == [] then Whole else Preinit, rs)
    else var r := AfterOptions(rs, os[..|os| - 1]); AfterOption(r.0, r.1, os[|os| - 1])
  }

  /** td_list_add_sorted_uniq of the range for a number. */
  method AddNumber(n: nat, list: ListHead<Range>, ghost s: seq<ListHead<Range>>) returns (ghost t: seq<ListHead<Range>>)
    requires |s| > 0 && IsRing(s) && list == s[0]
    modifies s`next, s`prev
    ensures |t| > 0 && t[0] == list && IsRing(t) && Entries(t) == WithNumber(old(Entries(s)), n)
    ensures forall k :: 0 <= k < |t| ==> t[k] in s || fresh(t[k])
  {
    hide IsRing, Entries, UniquePosition, InsertAt, Refused;
    var newFreeSpace := new ListHead<Range>(NumberRange(n));
    ghost var k := UniquePosition(SpaceRangeCmp, NumberRange(n), Entries(s));
    var refused := ListAddSortedUniq(newFreeSpace, list, SpaceRangeCmp, s);
    t := if refused then s else InsertAt(s, k + 1, newFreeSpace);
    InsertedNode(s, k + 1, newFreeSpace);
  }

  lemma InsertedNode<X>(s: seq<X>, k: nat, x: X)
    requires 0 < k <= |s|
    ensures |InsertAt(s, k, x)| == |s| + 1 && InsertAt(s, k, x)[0] == s[0]
    ensures forall h :: h in InsertAt(s, k, x) ==> h in s || h == x
  {}

  /** The branches of the command line for numbers, one after the other. */
  method GiveNumbers(os: seq<NumberOption>, list: ListHead<Range>, ghost s: seq<ListHead<Range>>)
    returns (mode: InitSpace, ghost t: seq<ListHead<Range>>)
    requires |s| > 0 && IsRing(s) && list == s[0]
    modifies s`next, s`prev
    ensures IsRing(t) && (mode, Entries(t)) == AfterOptions(old(Entries(s)), os)
  {
    hide IsRing, WithNumber;
    var empty := ListEmpty(list, s);
    mode, t := if empty then Whole else Preinit, s;
    for i := 0 to |os|
      invariant |t| > 0 && t[0] == list && IsRing(t) && (mode, Entries(t)) == AfterOptions(old(Entries(s)), os[..i])
      invariant forall k :: 0 <= k < |t| ==> t[k] in s || fresh(t[k])
    {
      assert os[..i + 1][..i] == os[..i];
      if mode == Whole { mode := KindOf(os[i]); }
      if mode == KindOf(os[i]) { t := AddNumber(os[i].n, list, t); }
    }
    assert os[..|os|] == os;
  }

  /** The numbers of one kind. */
  function NumbersOf(os: seq<NumberOption>, kind: InitSpace): seq<nat> {
    if os == [] then []
    else
      var before, o := NumbersOf(os[..|os| - 1], kind), os[|os| - 1];
      if KindOf(o) == kind then before + [o.n] else before
  }

  /** Of the numbers given those count that are of the kind of the first one, and none if there were ranges before. */
  lemma {:induction false} OptionsKept(rs: seq<Range>, os: seq<NumberOption>)
    ensures rs != [] ==> AfterOptions(rs, os) == (Preinit, rs)
    ensures rs == [] && os != [] ==>
      AfterOptions(rs, os) == (KindOf(os[0]), WithNumbers(NumbersOf(os, KindOf(os[0]))))
  {
    hide WithNumber;
    if |os| > 1 {
      OptionsKept(rs, os[..|os| - 1]);
    } else if |os| == 1 {
      assert os[..0] == [];
    }
  }

  lemma {:induction false} NumberGiven(os: seq<NumberOption>, kind: InitSpace, n: nat)
    ensures n in NumbersOf(os, kind) <==> exists i :: 0 <= i < |os| && KindOf(os[i]) == kind && os[i].n == n
  {
    if os != [] {
      var before := os[..|os| - 1];
      NumberGiven(before, kind, n);
      if n in NumbersOf(before, kind) {
        var i :| 0 <= i < |before| && KindOf(before[i]) == kind && before[i].n == n;
        assert os[i] == before[i];
      }
      if i :| 0 <= i < |os| && KindOf(os[i]) == kind && os[i].n == n && i < |before| {
        assert before[i] == os[i];
      }
    }
  }

  /** The search space that numbers on the command line lead to: sorted, without repetition, and holding exactly those
      of the kind of the first one. */
  lemma SpaceOfNumbers(os: seq<NumberOption>)
    requires os != []
    ensures AfterOptions([], os).0 == if os[0].GroupNumber? then Ext2Group else Ext2Inode
    ensures var rs := AfterOptions([], os).1;
      && (forall i, j :: 0 <= i < j < |rs| ==> rs[i].start < rs[j].start)
      && (forall i: nat :: i < |rs| ==> rs[i] == Range(rs[i].start, rs[i].start, 1, None))
      && (os[0].GroupNumber? ==> forall n: nat :: Range(n, n, 1, None) in rs <==> GroupNumber(n) in os)
      && (os[0].InodeNumber? ==> forall n: nat :: Range(n, n, 1, None) in rs <==> InodeNumber(n) in os)
  {
    hide AfterOptions, NumbersOf, WithNumbers, StrictlySorted, SpaceRangeCmp;
    var kind := KindOf(os[0]);
    var ns := NumbersOf(os, kind);
    OptionsKept([], os);
    NumbersKept(ns);
    NumbersAscend(WithNumbers(ns));
    forall n: nat ensures n in ns <==> (if os[0].GroupNumber? then GroupNumber(n) else InodeNumber(n)) in os {
      NumberGiven(os, kind, n);
    }
    forall n: nat ensures Range(n, n, 1, None) == NumberRange(n) {}
  }

  lemma NumbersAscend(rs: seq<Range>)
    requires StrictlySorted(SpaceRangeCmp, rs) && forall i: nat :: i < |rs| ==> IsNumber(rs[i])
    ensures forall i, j :: 0 <= i < j < |rs| ==> rs[i].start < rs[j].start
    ensures forall i: nat :: i < |rs| ==> rs[i] == Range(rs[i].start, rs[i].start, 1, None)
  {
    hide SpaceRangeCmp;
    forall i, j | 0 <= i < j < |rs| ensures rs[i].start < rs[j].start {
      assert IsNumber(rs[i]) && IsNumber(rs[j]);
      assert SpaceRangeCmp(rs[j], rs[i]) > 0;
      SpaceRangeClose(rs[j], rs[i]);
    }
  }

  ghost predicate IsNumber(r: Range) {
    r == NumberRange(r.start)
  }

  /** The search space given by numbers: sorted, without repetition, and holding exactly the numbers given. */
  lemma {:induction false} NumbersKept(ns: seq<nat>)
    ensures StrictlySorted(SpaceRangeCmp, WithNumbers(ns))
    ensures forall i: nat :: i < |WithNumbers(ns)| ==> IsNumber(WithNumbers(ns)[i])
    ensures forall n: nat :: NumberRange(n) in WithNumbers(ns) <==> n in ns
  {
    hide SpaceRangeCmp, UniquePosition, InsertAt, Refused, StrictlySorted, Ordered, ThreeWay;
    if ns == [] {
      NoNumbers();
    } else {
      var before, n := ns[..|ns| - 1], ns[|ns| - 1];
      NumbersKept(before);
      NumberAdded(WithNumbers(before), n);
      forall m: nat ensures NumberRange(m) in WithNumbers(ns) <==> m in ns {
        assert ns == before + [n];
      }
    }
  }

  lemma NoNumbers()
    ensures StrictlySorted(SpaceRangeCmp, [])
  {}

  lemma NumberAdded(rs: seq<Range>, n: nat)
    requires StrictlySorted(SpaceRangeCmp, rs) && forall i: nat :: i < |rs| ==> IsNumber(rs[i])
    ensures StrictlySorted(SpaceRangeCmp, WithNumber(rs, n))
    ensures forall i: nat :: i < |WithNumber(rs, n)| ==> IsNumber(WithNumber(rs, n)[i])
    ensures forall m: nat :: NumberRange(m) in WithNumber(rs, n) <==> NumberRange(m) in rs || m == n
  {
    hide SpaceRangeCmp, UniquePosition, InsertAt, Refused, StrictlySorted, Ordered, ThreeWay;
    var s := iset r: Range | IsNumber(r);
    var x := NumberRange(n);
    SpaceRangeThreeWay(s);
    WeaklySorted(rs);
    RefusedIffPresent(SpaceRangeCmp, s, x, rs);
    if Refused(SpaceRangeCmp, x, rs) {
      var i :| 0 <= i < |rs| && SpaceRangeCmp(x, rs[i]) == 0;
      SpaceRangeClose(x, rs[i]);
    } else {
      UniqueKept(SpaceRangeCmp, s, x, rs);
      InsertedNumber(rs, UniquePosition(SpaceRangeCmp, x, rs), x);
    }
  }

  lemma WeaklySorted(rs: seq<Range>)
    requires StrictlySorted(SpaceRangeCmp, rs)
    ensures Sorted(SpaceRangeCmp, rs)
  {}

  lemma InsertedNumber(rs: seq<Range>, k: nat, x: Range)
    requires k <= |rs| && IsNumber(x) && forall i: nat :: i < |rs| ==> IsNumber(rs[i])
    ensures forall i: nat :: i < |InsertAt(rs, k, x)| ==> IsNumber(InsertAt(rs, k, x)[i])
    ensures forall r: Range :: r in InsertAt(rs, k, x) <==> r in rs || r == x
  {
    hide IsNumber;
    assert rs == rs[..k] + rs[k..];
  }
}
