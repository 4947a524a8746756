/**
 The block arena (block_arena.go): a lazy, chunked bump allocator whose slices
 stay where they are for the life of the block.
 */
module Arenas {
  import opened Bytes
  import opened Parsing
  import opened Streams
  import opened Memory

  const CHUNK_SIZE := 4 * 1024 * 1024
  const MIN_FIRST_CHUNK := 4 * 1024

  // The first chunk fits the request and the hint, within the two bounds.
  function FirstChunkSize(n: nat, hint: int): (r: nat)
    requires n <= CHUNK_SIZE
    ensures n <= r && 4096 <= r <= 4_194_304 && (hint <= 4_194_304 ==> hint <= r)
    ensures r == n || r == hint || r == 4096 || r == 4_194_304 < hint
    ensures hint >= 4_194_304 ==> r == 4_194_304
  {
    var want := if hint > n then hint else n;
    if want < MIN_FIRST_CHUNK then MIN_FIRST_CHUNK
    else if want > CHUNK_SIZE then CHUNK_SIZE
    else want
  }

  ghost function TotalLength(chunks: seq<array<byte>>): nat {
    if chunks == [] then 0
    else TotalLength(chunks[..|chunks| - 1]) + chunks[|chunks| - 1].Length
  }

  lemma TotalLengthAppend(chunks: seq<array<byte>>, c: array<byte>)
    ensures TotalLength(chunks + [c]) == TotalLength(chunks) + c.Length
  {
    assert (chunks + [c])[..|chunks|] == chunks;
  }

  // later knows every cell of earlier, with the same contents.
  ghost predicate Extends(later: map<Slice, bytes>, earlier: map<Slice, bytes>) {
    forall s :: s in earlier ==> s in later && later[s] == earlier[s]
  }

  // Two cells never overlap.
  ghost predicate Separate(cells: map<Slice, bytes>) {
    forall s, t :: s in cells && t in cells && s != t ==> Disjoint(s, t)
  }

  // A cell is a window of a chunk with capacity equal to length; in the active
  // chunk it ends before the cursor, and an oversize chunk holds only one.
  ghost predicate Placed(s: Slice, image: map<array<byte>, bytes>, active: array?<byte>, offset: nat) {
    && s.Slice? && 0 < s.len == s.cap && s.arr in image
    && s.off + s.len <= |image[s.arr]| == s.arr.Length
    && (s.arr == active ==> s.off + s.len <= offset)
    && (s.arr.Length > CHUNK_SIZE ==> s.off == 0 && s.len == s.arr.Length)
  }

  // Given what each chunk holds: every cell has its place and holds its bytes, no
  // two overlap, and the unused part of the active chunk is still zero.
  ghost predicate Layout(
    cells: map<Slice, bytes>, image: map<array<byte>, bytes>, active: array?<byte>, offset: nat)
  {
    && (forall s :: s in cells ==>
          Placed(s, image, active, offset) && image[s.arr][s.off..s.off + s.len] == cells[s])
    && Separate(cells)
    && (active != null ==> active in image && forall k :: offset <= k < |image[active]| ==> image[active][k] == 0)
  }

  lemma CellsApart(cells: map<Slice, bytes>, s: Slice, t: Slice)
    requires Separate(cells) && s in cells && t in cells && s != t
    ensures Disjoint(s, t)
  {
  }

  lemma SeparateKeys(cells: map<Slice, bytes>, cells': map<Slice, bytes>)
    requires Separate(cells) && cells'.Keys == cells.Keys
    ensures Separate(cells')
  {
  }

  lemma WindowKept(a: bytes, b: bytes, lo: nat, hi: nat, from: nat, to: nat)
    requires |a| == |b| && from <= to <= |a|
    requires to <= lo || hi <= from
    requires forall i :: 0 <= i < |a| && !(lo <= i < hi) ==> b[i] == a[i]
    ensures b[from..to] == a[from..to]
  {
  }

  // Writing inside one cell changes the contents of that cell only.
  lemma LayoutWrite(
    cells: map<Slice, bytes>, image: map<array<byte>, bytes>, active: array?<byte>, offset: nat,
    s: Slice, chunk: bytes)
    requires Layout(cells, image, active, offset)
    requires s in cells && |chunk| == |image[s.arr]|
    requires forall i :: 0 <= i < |chunk| && !(s.off <= i < s.off + s.len) ==> chunk[i] == image[s.arr][i]
    ensures Layout(cells[s := chunk[s.off..s.off + s.len]], image[s.arr := chunk], active, offset)
  {
    hide Separate;
    var image' := image[s.arr := chunk];
    var cells' := cells[s := chunk[s.off..s.off + s.len]];
    assert cells'.Keys == cells.Keys;
    forall t | t in cells
      ensures Placed(t, image', active, offset)
      ensures image'[t.arr][t.off..t.off + t.len] == cells'[t]
    {
      if t != s && t.arr == s.arr {
        CellsApart(cells, s, t);
        WindowKept(image[s.arr], chunk, s.off, s.off + s.len, t.off, t.off + t.len);
      }
    }
    SeparateKeys(cells, cells');
  }

  lemma LayoutFirst(cells: map<Slice, bytes>, image: map<array<byte>, bytes>, chunk: array<byte>)
    requires Layout(cells, image, null, 0)
    requires chunk !in image
    ensures Layout(cells, image[chunk := Zeros(chunk.Length)], chunk, 0)
  {
  }

  lemma LayoutBump(
    cells: map<Slice, bytes>, image: map<array<byte>, bytes>, active: array<byte>, offset: nat, n: nat)
    requires Layout(cells, image, active, offset)
    requires 0 < n && offset + n <= |image[active]| == active.Length <= CHUNK_SIZE
    ensures var s := Slice(active, offset, n, n);
            s !in cells && Layout(cells[s := Zeros(n)], image, active, offset + n)
  {
    assert image[active][offset..offset + n] == Zeros(n);
  }

  lemma LayoutRetire(
    cells: map<Slice, bytes>, image: map<array<byte>, bytes>, active: array<byte>, offset: nat,
    chunk: array<byte>, n: nat)
    requires Layout(cells, image, active, offset)
    requires chunk !in image && 0 < n <= chunk.Length <= CHUNK_SIZE
    ensures var s := Slice(chunk, 0, n, n);
            s !in cells && Layout(cells[s := Zeros(n)], image[chunk := Zeros(chunk.Length)], chunk, n)
  {
    assert Zeros(chunk.Length)[0..n] == Zeros(n);
  }

  lemma LayoutNewChunk(
    cells: map<Slice, bytes>, image: map<array<byte>, bytes>, active: array?<byte>, offset: nat, s: Slice)
    requires Layout(cells, image, active, offset)
    requires s.Slice? && s.arr !in image && 0 < s.len && s == Slice(s.arr, 0, s.arr.Length, s.arr.Length)
    requires active != s.arr
    ensures s !in cells
    ensures Layout(cells[s := Zeros(s.len)], image[s.arr := Zeros(s.len)], active, offset)
  {
    assert Zeros(s.len)[0..s.len] == Zeros(s.len);
  }

  class Arena {
    var active: array?<byte>
    var offset: nat
    var others: seq<array<byte>>
    const sizeHint: int

    // Every non-empty slice handed out so far, with what it holds.
    ghost var cells: map<Slice, bytes>
    // What each chunk holds.
    ghost var image: map<array<byte>, bytes>
    // Bytes requested over the whole run.
    ghost var requested: nat

    ghost function Chunks(): set<array<byte>>
      reads this
    {
      image.Keys
    }

    ghost predicate ChunksValid()
      reads this
    {
      && (active == null ==> offset == 0)
      && (active != null ==> offset <= active.Length <= CHUNK_SIZE && active in image && active !in others)
      && (forall i :: 0 <= i < |others| ==> others[i] in image)
    }

    ghost predicate Backed()
      reads this, Chunks()
    {
      forall c :: c in Chunks() ==> c[..] == image[c]
    }

    // Everything but the space bound.
    ghost predicate Consistent()
      reads this, Chunks()
    {
      && ChunksValid()
      && Backed()
      && Layout(cells, image, active, offset)
    }

    ghost predicate Valid()
      reads this, Chunks()
    {
      Consistent() && TotalLength(others) + offset <= 2 * requested
    }

    constructor (hint: int)
      ensures Valid()
      ensures cells == map[] && requested == 0 && Chunks() == {}
      ensures sizeHint == hint
    {
      active, offset, others, sizeHint := null, 0, [], hint;
      cells, image, requested := map[], map[], 0;
    }

    ghost function TotalBytes(): nat
      reads this
    {
      TotalLength(others) + (if active == null then 0 else active.Length)
    }

    // Space over every run: at most twice what was asked for, plus one chunk.
    lemma SpaceBound()
      requires Valid()
      ensures TotalBytes() <= 2 * requested + 4_194_304
    {
    }

    // Oversize: a private chunk parked among the others.
    method AllocOversize(n: nat) returns (s: Slice)
      requires Consistent() && n > CHUNK_SIZE
      modifies this`others, this`cells, this`image
      ensures Consistent()
      ensures fresh(s.Arrays()) && s.Slice? && s == Slice(s.arr, 0, n, n) && s.arr.Length == n
      ensures others == old(others) + [s.arr]
      ensures old(Chunks()) <= Chunks() && fresh(Chunks() - old(Chunks()))
      ensures s !in old(cells) && cells == old(cells)[s := Zeros(n)]
    {
      hide Layout;
      var chunk := new byte[n](_ => 0);
      assert chunk[..] == Zeros(n);
      others := others + [chunk];
      s := Slice(chunk, 0, n, n);
      image := image[chunk := chunk[..]];
      LayoutNewChunk(cells, old(image), active, offset, s);
      cells := cells[s := Zeros(n)];
    }

    // Lazy first standard chunk.
    method StartFirstChunk(n: nat)
      requires Consistent() && active == null && n <= CHUNK_SIZE
      modifies this`active, this`offset, this`image
      ensures Consistent()
      ensures active != null && fresh(active) && active.Length == FirstChunkSize(n, sizeHint) && offset == 0
      ensures old(Chunks()) <= Chunks() && fresh(Chunks() - old(Chunks()))
    {
      hide Layout;
      var first := n;
      if sizeHint > first {
        first := sizeHint;
      }
      if first < MIN_FIRST_CHUNK {
        first := MIN_FIRST_CHUNK;
      }
      if first > CHUNK_SIZE {
        first := CHUNK_SIZE;
      }
      active := new byte[first](_ => 0);
      offset := 0;
      image := image[active := active[..]];
      assert active[..] == Zeros(first);
      LayoutFirst(cells, old(image), active);
    }

    // The next n bytes of the active chunk.
    method Bump(n: nat) returns (s: Slice)
      requires Consistent() && 0 < n
      requires active != null && offset + n <= active.Length
      modifies this`offset, this`cells
      ensures Consistent()
      ensures s == Slice(active, old(offset), n, n) && offset == old(offset) + n
      ensures s !in old(cells) && cells == old(cells)[s := Zeros(n)]
    {
      s := Slice(active, offset, n, n);
      offset := offset + n;
      LayoutBump(cells, image, active, old(offset), n);
      cells := cells[s := Zeros(n)];
    }

    // Retire the full chunk and start a standard one with this request.
    method Retire(n: nat) returns (s: Slice)
      requires Consistent() && 0 < n <= CHUNK_SIZE
      requires active != null
      modifies this`active, this`offset, this`others, this`cells, this`image
      ensures Consistent()
      ensures active != null && fresh(active) && active.Length == CHUNK_SIZE && offset == n
      ensures others == old(others) + [old(active)]
      ensures old(Chunks()) <= Chunks() && fresh(Chunks() - old(Chunks()))
      ensures s == Slice(active, 0, n, n)
      ensures s !in old(cells) && cells == old(cells)[s := Zeros(n)]
    {
      hide Layout;
      others := others + [active];
      active := new byte[CHUNK_SIZE](_ => 0);
      offset := n;
      s := Slice(active, 0, n, n);
      image := image[active := active[..]];
      LayoutRetire(cells, old(image), old(active), old(offset), active, n);
      assert active[..] == Zeros(CHUNK_SIZE);
      cells := cells[s := Zeros(n)];
    }

    ghost method Account(n: nat)
      requires Consistent()
      modifies this`requested
      ensures Consistent() && requested == old(requested) + n
    {
      requested := requested + n;
    }

    method Alloc(n: nat) returns (s: Slice)
      requires Valid()
      modifies this
      ensures Valid()
      ensures requested == old(requested) + n
      ensures n == 0 ==> s == Nil && cells == old(cells) && Chunks() == old(Chunks())
      ensures n > 0 ==> s.Slice? && s.len == n == s.cap && s !in old(cells) && s.Sound()
      ensures n > 0 ==> cells == old(cells)[s := Zeros(n)]
      ensures old(Chunks()) <= Chunks() && fresh(Chunks() - old(Chunks()))
      // Oversize: a private chunk; the active one is untouched.
      ensures n > 4_194_304 ==>
                fresh(s.arr) && s.arr.Length == n && active == old(active) && offset == old(offset)
      // First chunk, fast path, retire.
      ensures 0 < n <= 4_194_304 && old(active) == null ==>
                active != null && fresh(active) && active.Length == FirstChunkSize(n, sizeHint)
                && others == old(others)
      ensures 0 < n <= 4_194_304 && old(active) != null && old(offset) + n <= old(active).Length ==>
                active == old(active) && others == old(others) && s.off == old(offset)
      ensures 0 < n <= 4_194_304 && old(active) != null && old(offset) + n > old(active).Length ==>
                active != null && fresh(active) && active.Length == 4_194_304
                && others == old(others) + [old(active)]
    {
      hide Consistent;
      if n == 0 {
        return Nil;
      }
      Account(n);
      if n > CHUNK_SIZE {
        s := AllocOversize(n);
        TotalLengthAppend(old(others), s.arr);
        return;
      }
      if active == null {
        StartFirstChunk(n);
      }
      if offset + n <= active.Length {
        s := Bump(n);
        return;
      }
      TotalLengthAppend(others, active);
      s := Retire(n);
    }

    lemma CellPlaced(s: Slice)
      requires Consistent()
      requires s in cells
      ensures s.Slice? && s.arr in Chunks() && s.Sound() && s.len == s.cap && s.Contents() == cells[s]
    {
    }

    // Slices handed out at any time never overlap, and one longer than a chunk has
    // its array to itself.
    lemma SlicesApart(s: Slice, t: Slice)
      requires Valid() && s in cells && t in cells && s != t
      ensures Disjoint(s, t)
      ensures s.Slice? && t.Slice? && (s.len > CHUNK_SIZE ==> s.arr != t.arr)
    {
      hide Disjoint;
      CellsApart(cells, s, t);
    }

    // io.ReadFull into a slice of this arena. No other slice changes.
    method Store(src: Source, s: Slice) returns (err: Outcome)
      requires Valid() && src.Valid()
      requires s in cells
      modifies this`cells, this`image, src, src.base, s.Arrays()
      ensures Valid() && src.Valid()
      ensures s in cells && cells == old(cells)[s := cells[s]] && Chunks() == old(Chunks())
      ensures var spec := TakeN(src.View(), old(src.base.pos), s.Len());
              && err == spec.Outcome() && src.base.pos == spec.next
              && (err.Success? ==> cells[s] == spec.value)
    {
      hide Layout;
      CellPlaced(s);
      err := ReadInto(src, s);
      LayoutWrite(cells, image, active, offset, s, s.arr[..]);
      cells, image := cells[s := s.Contents()], image[s.arr := s.arr[..]];
    }
  }

  // What a script slice holds, according to the arena.
  ghost predicate Holds(cells: map<Slice, bytes>, s: Slice, b: bytes) {
    if s.Nil? then b == [] else s in cells && cells[s] == b
  }

  // The script slice is in the arena and its memory is exactly b.
  lemma HeldContents(a: Arena, s: Slice, b: bytes)
    requires a.Valid()
    requires Holds(a.cells, s, b)
    ensures s.Sound() && s.Contents() == b && s.Cap() == s.Len() == |b|
  {
  }

  method AllocAndRead(a: Arena, src: Source, n: nat) returns (s: Slice, err: Outcome)
    requires a.Valid() && src.Valid()
    modifies a, a.Chunks(), src, src.base
    ensures a.Valid() && src.Valid()
    ensures old(a.Chunks()) <= a.Chunks() && fresh(a.Chunks() - old(a.Chunks()))
    ensures Extends(a.cells, old(a.cells))
    ensures var spec := TakeN(src.View(), old(src.base.pos), n);
            && err == spec.Outcome() && src.base.pos == spec.next
            && (err.Success? ==> Holds(a.cells, s, spec.value))
    ensures a.requested == old(a.requested) + n
  {
    hide Arena.Consistent;
    s := a.Alloc(n);
    if n > 0 {
      assert s.arr in a.Chunks() by { a.CellPlaced(s); }
      err := a.Store(src, s);
    } else {
      err := Success;
    }
  }
}
