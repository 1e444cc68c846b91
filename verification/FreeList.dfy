/**
 The segregated free list of a page space (vm/FreeList.c).

 Bin `i` below 128 chains the free cells of exactly `16 * i` bytes, bin 128 the larger ones.  The
 headers of free cells are the memory this class owns: `spaces` maps the address of each free cell
 to its header words.  Address 0 is NULL.
 */
module FreeLists {
  import opened ObjectModel

  const FREE_LIST_SIZE: nat := 128
  const FREE_MAP_SIZE: nat := FREE_LIST_SIZE / 8 + 1

  datatype FreeSpace = FreeSpace(next: Addr, size: nat, marked: bool)

  type Spaces = map<Addr, FreeSpace>

  /** What an allocation does: it finds a cell, finds none, or fails an assertion of the C code. */
  datatype Allocation = Allocated(p: Addr) | Full | AssertionFailed

  function IndexForSize(size: nat): (index: nat)
    ensures index <= FREE_LIST_SIZE
  {
    var index := size / HEAP_OBJECT_ALIGN;
    if index > FREE_LIST_SIZE then FREE_LIST_SIZE else index
  }

  predicate IsCellSize(size: nat) {
    size % HEAP_OBJECT_ALIGN == 0 && HEAP_OBJECT_ALIGN <= size
  }

  function SizesOf(spaces: Spaces): map<Addr, nat> {
    map a | a in spaces :: spaces[a].size
  }

  /** The `j`-th cell of a chain, or NULL behind its end. */
  function CellAt(chain: seq<Addr>, j: nat): Addr {
    if j < |chain| then chain[j] else 0
  }

  /** `chain` is the linked list of the cells of bin `index`, without repetition. */
  ghost predicate IsChain(spaces: Spaces, index: nat, chain: seq<Addr>) {
    && (forall j :: 0 <= j < |chain| ==>
          && chain[j] in spaces && chain[j] != 0
          && IndexForSize(spaces[chain[j]].size) == index
          && spaces[chain[j]].next == CellAt(chain, j + 1))
    && (forall j, k :: 0 <= j < k < |chain| ==> chain[j] != chain[k])
  }

  /** Every free cell is linked into exactly the bin of its size. */
  ghost predicate AreBinned(spaces: Spaces, chains: seq<seq<Addr>>) {
    && |chains| == FREE_LIST_SIZE + 1
    && (forall a :: a in spaces ==> a != 0 && IsCellSize(spaces[a].size) && IsLinked(spaces[a].size, a, chains))
    && (forall i :: 0 <= i <= FREE_LIST_SIZE ==> IsChain(spaces, i, chains[i]))
  }

  ghost predicate IsLinked(size: nat, a: Addr, chains: seq<seq<Addr>>)
    requires |chains| == FREE_LIST_SIZE + 1
  {
    a in chains[IndexForSize(size)]
  }

  lemma PushKeepsBins(spaces: Spaces, chains: seq<seq<Addr>>, a: Addr, cell: FreeSpace)
    requires AreBinned(spaces, chains) && a !in spaces && a != 0 && IsCellSize(cell.size)
    requires cell.next == CellAt(chains[IndexForSize(cell.size)], 0)
    ensures var index := IndexForSize(cell.size);
            AreBinned(spaces[a := cell], chains[index := [a] + chains[index]])
  {
    hide IndexForSize, IsCellSize;
    var index := IndexForSize(cell.size);
    var spaces', chain' := spaces[a := cell], [a] + chains[index];
    var chains' := chains[index := chain'];
    forall j | 0 <= j < |chain'|
      ensures chain'[j] in spaces' && chain'[j] != 0
      ensures IndexForSize(spaces'[chain'[j]].size) == index && spaces'[chain'[j]].next == CellAt(chain', j + 1)
    {
      assert j > 0 ==> chain'[j] == chains[index][j - 1];
    }
    assert IsChain(spaces', index, chain');
    forall x | x in spaces'
      ensures IsLinked(spaces'[x].size, x, chains')
    {
      if x == a {
        assert chain'[0] == a;
      } else {
        assert IsLinked(spaces[x].size, x, chains);
      }
    }
  }

  lemma PoppedIsChain(spaces: Spaces, index: nat, chain: seq<Addr>)
    requires IsChain(spaces, index, chain) && chain != []
    ensures chain[0] in spaces && chain[0] != 0 && IndexForSize(spaces[chain[0]].size) == index
    ensures spaces[chain[0]].next == CellAt(chain[1..], 0) && (spaces[chain[0]].next == 0 <==> chain[1..] == [])
    ensures IsChain(spaces - {chain[0]}, index, chain[1..])
  {
    hide IndexForSize;
    var spaces', chain' := spaces - {chain[0]}, chain[1..];
    forall j | 0 <= j < |chain'|
      ensures chain'[j] in spaces' && chain'[j] != 0
      ensures IndexForSize(spaces'[chain'[j]].size) == index && spaces'[chain'[j]].next == CellAt(chain', j + 1)
    {
      assert chain'[j] == chain[j + 1];
    }
  }

  lemma OtherIsChain(spaces: Spaces, index: nat, chain: seq<Addr>, a: Addr)
    requires IsChain(spaces, index, chain) && a in spaces && IndexForSize(spaces[a].size) != index
    ensures IsChain(spaces - {a}, index, chain)
  {
    hide IndexForSize;
  }

  lemma PopKeepsBins(spaces: Spaces, chains: seq<seq<Addr>>, index: nat)
    requires AreBinned(spaces, chains) && index <= FREE_LIST_SIZE && chains[index] != []
    ensures chains[index][0] in spaces && IndexForSize(spaces[chains[index][0]].size) == index
    ensures IsCellSize(spaces[chains[index][0]].size)
    ensures spaces[chains[index][0]].next == CellAt(chains[index][1..], 0)
    ensures spaces[chains[index][0]].next == 0 <==> chains[index][1..] == []
    ensures AreBinned(spaces - {chains[index][0]}, chains[index := chains[index][1..]])
  {
    hide IndexForSize, IsCellSize, IsChain;
    var a := chains[index][0];
    var spaces', chains' := spaces - {a}, chains[index := chains[index][1..]];
    PoppedIsChain(spaces, index, chains[index]);
    forall i | 0 <= i <= FREE_LIST_SIZE && i != index
      ensures IsChain(spaces', i, chains'[i])
    {
      OtherIsChain(spaces, i, chains[i], a);
    }
    forall x | x in spaces'
      ensures IsLinked(spaces'[x].size, x, chains')
    {
      assert IsLinked(spaces[x].size, x, chains);
    }
  }

  lemma ToggleKeepsBins(spaces: Spaces, chains: seq<seq<Addr>>, a: Addr)
    requires AreBinned(spaces, chains) && a in spaces
    ensures AreBinned(spaces[a := spaces[a].(marked := !spaces[a].marked)], chains)
  {
    hide IndexForSize, IsCellSize, CellAt;
    var spaces' := spaces[a := spaces[a].(marked := !spaces[a].marked)];
    forall i | 0 <= i <= FREE_LIST_SIZE
      ensures IsChain(spaces', i, chains[i])
    {
      assert IsChain(spaces, i, chains[i]);
    }
  }

  /**
   A block of `block` bytes is found for a request of `size` bytes: one of the same size, or a larger
   one.  Larger ones are looked for from bin `n` on.  The mask `~((1 << n) - 1)` is cut to a byte, so
   unless `n % 32` (the shift count of the processor) is below 8 the whole byte of `n` is skipped.
   */
  predicate Serves(size: nat, block: nat) {
    var n := size / HEAP_OBJECT_ALIGN + 1;
    || block == size
    || (size < block && (n % 32 < 8 || FREE_LIST_SIZE <= n || (n / 8 + 1) * 8 * HEAP_OBJECT_ALIGN <= block))
  }

  ghost predicate FindsSmall(spaces: Spaces, size: nat) {
    exists a :: a in spaces && spaces[a].size < FREE_LIST_SIZE * HEAP_OBJECT_ALIGN && Serves(size, spaces[a].size)
  }

  /** Some free block is found for the request. */
  ghost predicate Finds(spaces: Spaces, size: nat) {
    exists a :: a in spaces && Serves(size, spaces[a].size)
  }

  /** The bins below 128 in which `freeListTryAllocate` looks: the exact one, then those `freeMapNext` does not skip. */
  predicate IsSearched(size: nat, bin: nat) {
    var n := IndexForSize(size) + 1;
    bin < FREE_LIST_SIZE && (bin == IndexForSize(size) || (if n % 32 < 8 then n else (n / 8 + 1) * 8) <= bin)
  }

  ghost predicate HasLargeFit(spaces: Spaces, chains: seq<seq<Addr>>, size: nat)
    requires |chains| == FREE_LIST_SIZE + 1
  {
    exists a :: a in chains[FREE_LIST_SIZE] && a in spaces && size <= spaces[a].size
  }

  /**
   The search of the last bin goes through its list, but the head of the list is popped: the
   assertion of the split fails exactly when only a later block is larger than the request.
   */
  ghost predicate FailsSplit(spaces: Spaces, chains: seq<seq<Addr>>, size: nat)
    requires |chains| == FREE_LIST_SIZE + 1
  {
    var large := chains[FREE_LIST_SIZE];
    && !FindsSmall(spaces, size) && HasLargeFit(spaces, chains, size)
    && large != [] && large[0] in spaces && spaces[large[0]].size <= size
  }

  /** Blocks do not overlap. */
  ghost predicate AreApart(sizes: map<Addr, nat>) {
    forall a, b :: a in sizes && b in sizes && a < b ==> a + sizes[a] <= b
  }

  /** The bins that are searched are those of the blocks that serve the request. */
  lemma SearchedServes(size: nat, block: nat)
    requires IsCellSize(size) && IsCellSize(block)
    ensures block < FREE_LIST_SIZE * HEAP_OBJECT_ALIGN ==> (Serves(size, block) <==> IsSearched(size, IndexForSize(block)))
    ensures FREE_LIST_SIZE * HEAP_OBJECT_ALIGN <= block ==> (Serves(size, block) <==> size <= block)
  {
  }

  lemma ServesPlainly(spaces: Spaces, size: nat)
    ensures forall a :: a in spaces ==>
              (Serves(size, spaces[a].size) <==>
               || spaces[a].size == size
               || (size < spaces[a].size
                   && ((size / 16 + 1) % 32 < 8 || 2032 <= size || ((size / 16 + 1) / 8 + 1) * 128 <= spaces[a].size)))
  {
  }

  lemma MissedPlainly(spaces: Spaces, size: nat)
    requires !Finds(spaces, size)
    ensures forall a :: a in spaces && size <= spaces[a].size ==>
              && 8 <= (size / 16 + 1) % 32 && size < 2032
              && size < spaces[a].size < ((size / 16 + 1) / 8 + 1) * 128
  {
    ServesPlainly(spaces, size);
  }

  lemma BlockIsBinned(spaces: Spaces, chains: seq<seq<Addr>>, a: Addr)
    requires AreBinned(spaces, chains) && a in spaces
    ensures IsCellSize(spaces[a].size) && a in chains[IndexForSize(spaces[a].size)]
    ensures IndexForSize(spaces[a].size) < FREE_LIST_SIZE <==> spaces[a].size < FREE_LIST_SIZE * HEAP_OBJECT_ALIGN
    ensures IndexForSize(spaces[a].size) < FREE_LIST_SIZE ==>
              spaces[a].size == HEAP_OBJECT_ALIGN * IndexForSize(spaces[a].size)
  {
    assert IsLinked(spaces[a].size, a, chains);
  }

  /** The head of the first bin that is searched and not empty is the smallest block below 2048 bytes that serves the request. */
  lemma FirstSearchedIsBest(spaces: Spaces, chains: seq<seq<Addr>>, size: nat, bin: nat)
    requires AreBinned(spaces, chains) && IsCellSize(size)
    requires IsSearched(size, bin) && chains[bin] != []
    requires forall i: nat :: i < bin && IsSearched(size, i) ==> chains[i] == []
    ensures var a := chains[bin][0];
            && a in spaces && spaces[a].size < FREE_LIST_SIZE * HEAP_OBJECT_ALIGN && Serves(size, spaces[a].size)
            && forall b :: b in spaces && Serves(size, spaces[b].size) ==> spaces[a].size <= spaces[b].size
    ensures spaces[chains[bin][0]].size == size <==> bin == IndexForSize(size)
  {
    BinIsChain(spaces, chains, bin);
    BlockIsBinned(spaces, chains, chains[bin][0]);
    SearchedServes(size, spaces[chains[bin][0]].size);
    assert IsCellSize(size) ==> IndexForSize(size) == bin ==> size == HEAP_OBJECT_ALIGN * bin;
    hide AreBinned, IsChain, IsSearched, IndexForSize, Serves, IsCellSize;
    forall b | b in spaces && Serves(size, spaces[b].size)
      ensures spaces[chains[bin][0]].size <= spaces[b].size
    {
      BlockIsBinned(spaces, chains, b);
      SearchedServes(size, spaces[b].size);
    }
  }

  lemma BigAreBinned(size: nat)
    ensures size < FREE_LIST_SIZE * HEAP_OBJECT_ALIGN <==> IndexForSize(size) < FREE_LIST_SIZE
    ensures size < 2032 ==> ((size / 16 + 1) / 8 + 1) * 128 <= FREE_LIST_SIZE * HEAP_OBJECT_ALIGN
  {
  }

  /** When all bins that are searched are empty, only a block of the last bin can serve the request. */
  lemma NoneSearched(spaces: Spaces, chains: seq<seq<Addr>>, size: nat)
    requires AreBinned(spaces, chains) && IsCellSize(size)
    requires forall i: nat :: IsSearched(size, i) ==> chains[i] == []
    ensures !FindsSmall(spaces, size)
    ensures Finds(spaces, size) <==> HasLargeFit(spaces, chains, size)
  {
    LargeBlocks(spaces, chains);
    forall b | b in spaces && Serves(size, spaces[b].size)
      ensures FREE_LIST_SIZE * HEAP_OBJECT_ALIGN <= spaces[b].size && b in chains[FREE_LIST_SIZE] && size <= spaces[b].size
    {
      BlockIsBinned(spaces, chains, b);
      SearchedServes(size, spaces[b].size);
    }
    forall b | b in chains[FREE_LIST_SIZE] && b in spaces && size <= spaces[b].size
      ensures Serves(size, spaces[b].size)
    {
      BlockIsBinned(spaces, chains, b);
      SearchedServes(size, spaces[b].size);
    }
  }

  lemma BinIsChain(spaces: Spaces, chains: seq<seq<Addr>>, index: nat)
    requires AreBinned(spaces, chains) && index <= FREE_LIST_SIZE
    ensures IsChain(spaces, index, chains[index])
  {
  }

  lemma LargeBlocks(spaces: Spaces, chains: seq<seq<Addr>>)
    requires AreBinned(spaces, chains)
    ensures forall a :: a in chains[FREE_LIST_SIZE] ==> a in spaces && FREE_LIST_SIZE * HEAP_OBJECT_ALIGN <= spaces[a].size
  {
    assert IsChain(spaces, FREE_LIST_SIZE, chains[FREE_LIST_SIZE]);
  }

  /** A fit that the search does not find lies in a bin that shares the byte of the first bin looked at. */
  lemma MissedFitIsSkipped(spaces: Spaces, chains: seq<seq<Addr>>, size: nat, a: Addr)
    requires AreBinned(spaces, chains) && IsCellSize(size)
    requires a in spaces && size <= spaces[a].size
    requires !Finds(spaces, size)
    ensures IndexForSize(size) < IndexForSize(spaces[a].size) && 8 <= (IndexForSize(size) + 1) % 32
    ensures IndexForSize(spaces[a].size) / 8 == (IndexForSize(size) + 1) / 8
  {
    BlockIsBinned(spaces, chains, a);
    SearchedServes(size, spaces[a].size);
  }

  /** Fits are missed: a free block of 192 bytes does not serve a request of 128 bytes. */
  lemma FitIsMissed(a: Addr)
    requires a != 0
    ensures var spaces := map[a := FreeSpace(0, 192, false)];
            var chains := seq(FREE_LIST_SIZE + 1, i => if i == 12 then [a] else []);
            AreBinned(spaces, chains) && !Finds(spaces, 128)
  {
    assert IndexForSize(192) == 12;
  }

  /** The sizes after a block is taken: what is left of it becomes a new block behind `p + size`. */
  function TakeFrom(sizes: map<Addr, nat>, p: Addr, size: nat): map<Addr, nat>
    requires p in sizes && size <= sizes[p]
  {
    var rest := sizes[p] - size;
    if rest == 0 then sizes - {p} else (sizes - {p})[p + size := rest]
  }

  class FreeList {
    const freeSpaces: array<Addr>
    /** One entry for each bit of the C bitmap and of the byte that follows it. */
    const freeMap: array<bool>
    var spaces: Spaces
    /** The cells of each bin, in list order. */
    ghost var chains: seq<seq<Addr>>

    ghost predicate Valid()
      reads this, freeSpaces, freeMap
    {
      && freeSpaces.Length == FREE_LIST_SIZE + 1
      && freeMap.Length == (FREE_MAP_SIZE + 1) * 8
      && |chains| == FREE_LIST_SIZE + 1
      && AreBinned(spaces, chains)
      && (forall i :: 0 <= i <= FREE_LIST_SIZE ==> freeSpaces[i] == CellAt(chains[i], 0))
      && (forall i :: 0 <= i < FREE_LIST_SIZE ==> (freeMap[i] <==> chains[i] != []))
      && (forall i :: FREE_LIST_SIZE < i < freeMap.Length ==> !freeMap[i])
    }

    ghost function Sizes(): map<Addr, nat>
      reads this
    {
      SizesOf(spaces)
    }

    lemma Binned()
      requires Valid()
      ensures AreBinned(spaces, chains)
    {
    }

    /** initFreeList: one block; the bit of bin 128 stays clear although the bin is not empty. */
    constructor (start: Addr, size: nat)
      requires start != 0 && IsCellSize(size) && FREE_LIST_SIZE * HEAP_OBJECT_ALIGN <= size
      ensures Valid() && fresh(freeSpaces) && fresh(freeMap)
      ensures Sizes() == map[start := size] && chains == seq(FREE_LIST_SIZE, _ => []) + [[start]]
    {
      freeSpaces := new Addr[FREE_LIST_SIZE + 1](_ => 0);
      freeMap := new bool[(FREE_MAP_SIZE + 1) * 8](_ => false);
      spaces := map[start := FreeSpace(0, size, false)];
      chains := seq(FREE_LIST_SIZE, _ => []) + [[start]];
      new;
      freeSpaces[FREE_LIST_SIZE] := start;
    }

    /** createFreeSpace followed by freeListAddFreeSpace: the block becomes the head of its bin. */
    method AddFreeSpace(a: Addr, size: nat)
      requires Valid() && a !in spaces && a != 0 && IsCellSize(size)
      modifies this, freeSpaces, freeMap
      ensures Valid()
      ensures Sizes() == old(Sizes())[a := size]
      ensures spaces - {a} == old(spaces)
      ensures chains == old(chains)[IndexForSize(size) := [a] + old(chains)[IndexForSize(size)]]
    {
      hide IndexForSize, IsCellSize, AreBinned;
      var index := IndexForSize(size);
      PushKeepsBins(spaces, chains, a, FreeSpace(freeSpaces[index], size, false));
      spaces := spaces[a := FreeSpace(freeSpaces[index], size, false)];
      chains := chains[index := [a] + chains[index]];
      freeSpaces[index] := a;
      freeMap[index] := true;
    }

    /** The mark bit that the sweep flips in the headers of free cells, too. */
    method ToggleMark(a: Addr)
      requires Valid() && a in spaces
      modifies this`spaces
      ensures Valid() && Sizes() == old(Sizes())
      ensures spaces == old(spaces)[a := old(spaces)[a].(marked := !old(spaces)[a].marked)]
    {
      hide AreBinned, CellAt;
      ToggleKeepsBins(spaces, chains, a);
      spaces := spaces[a := spaces[a].(marked := !spaces[a].marked)];
    }

    /** The header of the popped block is returned with it, because it is no longer memory of the free list. */
    method PopFreeSpace(index: nat) returns (result: Addr, header: FreeSpace)
      requires Valid() && index <= FREE_LIST_SIZE && chains[index] != []
      modifies this, freeSpaces, freeMap
      ensures Valid()
      ensures result == old(chains)[index][0] && result in old(spaces) && header == old(spaces)[result]
      ensures IndexForSize(header.size) == index && IsCellSize(header.size)
      ensures spaces == old(spaces) - {result}
      ensures chains == old(chains)[index := old(chains)[index][1..]]
    {
      hide IndexForSize, IsCellSize, AreBinned;
      PopKeepsBins(spaces, chains, index);
      result := freeSpaces[index];
      header := spaces[result];
      if header.next == 0 {
        freeMap[index] := false;
      }
      freeSpaces[index] := header.next;
      spaces := spaces - {result};
      chains := chains[index := chains[index][1..]];
    }

    /** The lowest set bit of the bitmap from `from` up to `to`, or `to` (`__builtin_ctz` on a masked byte). */
    method LowestBit(from: nat, to: nat) returns (bit: nat)
      requires from <= to <= freeMap.Length
      ensures from <= bit <= to
      ensures forall i :: from <= i < bit ==> !freeMap[i]
      ensures bit < to ==> freeMap[bit]
    {
      bit := from;
      while bit < to && !freeMap[bit]
        invariant from <= bit <= to
        invariant forall i :: from <= i < bit ==> !freeMap[i]
      {
        bit := bit + 1;
      }
    }

    method FreeMapNext(index: nat) returns (next: int)
      requires Valid() && index < FREE_LIST_SIZE
      ensures -1 <= next < FREE_LIST_SIZE
      // The first bin from `index` on that is not empty, or from the next multiple of 8 on when the mask is cut.
      ensures next != -1 ==> chains[next] != [] && (if index % 32 < 8 then index else (index / 8 + 1) * 8) <= next
      ensures forall i ::
                (if index % 32 < 8 then index else (index / 8 + 1) * 8) <= i < (if next == -1 then FREE_LIST_SIZE else next) ==>
                chains[i] == []
    {
      hide AreBinned, CellAt;
      ghost var first := if index % 32 < 8 then index else (index / 8 + 1) * 8;
      var element := index / 8;
      var bit := LowestBit(if index % 32 < 8 then index else 8 * element + 8, 8 * element + 8);
      if bit < 8 * element + 8 {
        return bit;
      }
      var more := true;
      while more
        invariant index / 8 <= element <= FREE_MAP_SIZE
        invariant more ==> element < FREE_MAP_SIZE
        invariant first <= 8 * element + 8
        invariant forall i :: first <= i < 8 * element + 8 && i < FREE_LIST_SIZE ==> chains[i] == []
        invariant !more ==> element == FREE_MAP_SIZE
        decreases FREE_MAP_SIZE - element
      {
        element := element + 1;
        bit := LowestBit(8 * element, 8 * element + 8);
        if bit < 8 * element + 8 {
          return if bit == FREE_LIST_SIZE then -1 else bit;
        }
        more := element < FREE_MAP_SIZE;
      }
      return -1;
    }

    /** popAndSplitFreeSpace: fails the assertion of splitFreeSpace unless the block is strictly larger than the request. */
    method PopAndSplitFreeSpace(index: nat, size: nat) returns (r: Allocation)
      requires Valid() && index <= FREE_LIST_SIZE && chains[index] != []
      requires IsCellSize(size) && AreApart(Sizes())
      modifies this, freeSpaces, freeMap
      ensures !r.Full?
      ensures old(chains)[index][0] in old(spaces)
      ensures r.AssertionFailed? <==> old(spaces)[old(chains)[index][0]].size <= size
      ensures r.Allocated? ==> Valid() && r.p == old(chains)[index][0] && Sizes() == TakeFrom(old(Sizes()), r.p, size)
    {
      hide AreBinned, CellAt, IndexForSize;
      PopKeepsBins(spaces, chains, index);
      var p, header := PopFreeSpace(index);
      assert old(Sizes())[p] == header.size;
      if header.size <= size {
        return AssertionFailed;
      }
      assert p + size in old(Sizes()) ==> p + header.size <= p + size;
      AddFreeSpace(p + size, header.size - size);
      assert Sizes() == TakeFrom(old(Sizes()), p, size);
      return Allocated(p);
    }

    method TryAllocate(size: nat) returns (r: Allocation)
      requires Valid() && IsCellSize(size) && AreApart(Sizes())
      modifies this, freeSpaces, freeMap
      // A block that is taken was free and large enough, and what is left of it stays free.
      ensures r.Allocated? ==> Valid() && r.p in old(spaces) && size <= old(spaces)[r.p].size
      ensures r.Allocated? ==> Sizes() == TakeFrom(old(Sizes()), r.p, size)
      // It has the size itself, or is one of those larger ones that the cut mask leaves.
      ensures r.Allocated? && old(spaces)[r.p].size != size && 8 <= (size / 16 + 1) % 32 && size < 2032 ==>
                ((size / 16 + 1) / 8 + 1) * 128 <= old(spaces)[r.p].size
      // Among the blocks below 2048 bytes it is the smallest of these.
      ensures r.Allocated? ==> forall a :: a in old(spaces) && size <= old(spaces)[a].size < 2048 ==>
                || old(spaces)[r.p].size <= old(spaces)[a].size
                || (8 <= (size / 16 + 1) % 32 && size < old(spaces)[a].size < ((size / 16 + 1) / 8 + 1) * 128)
      // NULL is returned exactly when there are none of these.
      ensures r.Full? ==> forall a :: a in old(spaces) && size <= old(spaces)[a].size ==>
                && 8 <= (size / 16 + 1) % 32 && size < 2032
                && size < old(spaces)[a].size < ((size / 16 + 1) / 8 + 1) * 128
      ensures r.Full? <==> !Finds(old(spaces), size)
      ensures r.Full? ==> Valid() && spaces == old(spaces) && chains == old(chains)
      ensures r.AssertionFailed? <==> FailsSplit(old(spaces), old(chains), size)
      ensures r.AssertionFailed? ==> FREE_LIST_SIZE * HEAP_OBJECT_ALIGN <= size
    {
      var index := IndexForSize(size);
      hide AreBinned, IndexForSize, IsCellSize, Serves;
      ServesPlainly(spaces, size);
      BigAreBinned(size);
      if index != FREE_LIST_SIZE && freeMap[index] {
        FirstSearchedIsBest(spaces, chains, size, index);
        PopKeepsBins(spaces, chains, index);
        var p, _ := PopFreeSpace(index);
        assert Sizes() == TakeFrom(old(Sizes()), p, size);
        return Allocated(p);
      }
      if index + 1 < FREE_LIST_SIZE {
        var nextIndex := FreeMapNext(index + 1);
        if nextIndex != -1 {
          FirstSearchedIsBest(spaces, chains, size, nextIndex);
          r := PopAndSplitFreeSpace(nextIndex, size);
          return;
        }
      }
      NoneSearched(spaces, chains, size);
      r := TryAllocateLarge(size);
    }

    /** The end of freeListTryAllocate: the last bin is searched, and its head is popped. */
    method TryAllocateLarge(size: nat) returns (r: Allocation)
      requires Valid() && IsCellSize(size) && AreApart(Sizes())
      modifies this, freeSpaces, freeMap
      ensures r.Full? <==> !HasLargeFit(old(spaces), old(chains), size)
      ensures r.Full? ==> Valid() && spaces == old(spaces) && chains == old(chains)
      ensures !r.Full? ==> old(chains)[FREE_LIST_SIZE] != [] && old(chains)[FREE_LIST_SIZE][0] in old(spaces)
      ensures !r.Full? ==> FREE_LIST_SIZE * HEAP_OBJECT_ALIGN <= old(spaces)[old(chains)[FREE_LIST_SIZE][0]].size
      ensures r.AssertionFailed? <==> !r.Full? && old(spaces)[old(chains)[FREE_LIST_SIZE][0]].size <= size
      ensures r.AssertionFailed? ==> FREE_LIST_SIZE * HEAP_OBJECT_ALIGN <= size
      ensures r.Allocated? ==> Valid() && r.p == old(chains)[FREE_LIST_SIZE][0] && Sizes() == TakeFrom(old(Sizes()), r.p, size)
    {
      hide AreBinned, IndexForSize, IsCellSize;
      LargeBlocks(spaces, chains);
      assert chains[FREE_LIST_SIZE] != [] ==> chains[FREE_LIST_SIZE][0] in chains[FREE_LIST_SIZE];
      ghost var large, j := chains[FREE_LIST_SIZE], 0;
      assert IsChain(spaces, FREE_LIST_SIZE, large) by { BinIsChain(spaces, chains, FREE_LIST_SIZE); }
      var freeSpace := freeSpaces[FREE_LIST_SIZE];
      while freeSpace != 0
        invariant j <= |large| && freeSpace == CellAt(large, j)
        invariant forall k :: 0 <= k < j ==> spaces[large[k]].size < size
        decreases |large| - j
      {
        assert large[j] in large;
        if spaces[freeSpace].size >= size {
          assert large[0] in large;
          r := PopAndSplitFreeSpace(FREE_LIST_SIZE, size);
          return;
        }
        freeSpace := spaces[freeSpace].next;
        j := j + 1;
      }
      return Full;
    }
  }

  /**
   A block of 2048 bytes that was freed lies in front of one of 4096: the search for 3200 bytes finds
   the latter, the former is popped, and the assertion of the split fails.
   */
  method FailSplit() returns (list: FreeList, r: Allocation)
    ensures r.AssertionFailed?
  {
    hide FreeList.Valid, Finds, FailsSplit, IndexForSize;
    assert IndexForSize(2048) == FREE_LIST_SIZE by { BinOf2048(); }
    list := new FreeList(0x10000, 4096);
    assert 0x20000 !in SizesOf(list.spaces);
    list.AddFreeSpace(0x20000, 2048);
    LaterFit(list.spaces, list.chains);
    r := list.TryAllocate(3200);
  }

  lemma BinOf2048()
    ensures IndexForSize(2048) == FREE_LIST_SIZE
  {
  }

  lemma LaterFit(spaces: Spaces, chains: seq<seq<Addr>>)
    requires SizesOf(spaces) == map[0x10000 := 4096][0x20000 := 2048]
    requires chains == (seq(FREE_LIST_SIZE, _ => []) + [[0x10000]])[FREE_LIST_SIZE := [0x20000] + [0x10000]]
    ensures FailsSplit(spaces, chains, 3200)
  {
    hide IndexForSize;
    assert 0x10000 in SizesOf(spaces) && 0x20000 in SizesOf(spaces);
    assert spaces[0x10000].size == SizesOf(spaces)[0x10000] && spaces[0x20000].size == SizesOf(spaces)[0x20000];
    assert 0x10000 in chains[FREE_LIST_SIZE];
  }
}
