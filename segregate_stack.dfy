/**
 * The stack-access segregation pass (SegregateStackAccessesPass.cpp): the
 * per-block transfer function that tracks which store instruction last wrote
 * each stack byte, the redirector that maps the stack arguments of a call site
 * to the spans of the new argument frame, the decision taken for each store
 * that feeds a call site, and the shift used to split wide arguments.
 *
 * Instructions and LLVM values are identified by positive numbers; the null
 * store pointer is 0, which is below every real store in pointer order.
 */
module StackSegregation {
  import opened Wrappers
  import opened MachineInts

  /** A store instruction or an LLVM value, by identity (never null). */
  type InstRef = x: nat | 0 < x witness 1

  /** A store pointer in a `StoredByte`: an instruction or null. */
  type StorePtr = nat

  const NullStore: StorePtr := 0

  /** One stack byte and the byte of the store that last wrote it. */
  datatype StoredByte = StoredByte(stackOffset: int, store: StorePtr, storeOffset: nat)

  /** `StoredByte::operator<`: lexicographic on (StackOffset, Store, StoreOffset). */
  predicate Less(a: StoredByte, b: StoredByte)
  {
    a.stackOffset < b.stackOffset
    || (a.stackOffset == b.stackOffset
        && (a.store < b.store || (a.store == b.store && a.storeOffset < b.storeOffset)))
  }

  /** `Less` is a strict total order, as `std::set` needs. */
  lemma LessIsStrictTotalOrder(a: StoredByte, b: StoredByte, c: StoredByte)
    ensures !Less(a, a)
    ensures Less(a, b) && Less(b, c) ==> Less(a, c)
    ensures a != b ==> Less(a, b) || Less(b, a)
    ensures Less(a, b) ==> !Less(b, a)
  {
  }

  /** `StoredByte{ Offset }`: the search key with a null store and store offset 0. */
  function Key(offset: int): StoredByte
  {
    StoredByte(offset, NullStore, 0)
  }

  /**
   * `erase(lower_bound(Key(start)), upper_bound(Key(end)))`: the bytes that are
   * neither below the first key nor above the second one are removed.
   */
  function EraseRange(bytes: set<StoredByte>, start: int, end: int): set<StoredByte>
  {
    set b | b in bytes && (Less(b, Key(start)) || Less(Key(end), b))
  }

  /** Every recorded byte names a real store (the transfer function only inserts those). */
  ghost predicate AllOwned(bytes: set<StoredByte>)
  {
    forall b :: b in bytes ==> b.store != NullStore
  }

  /**
   * Because recorded bytes never hold the null store, erasing between the two
   * keys removes exactly the bytes whose offset lies in [start, start + n).
   */
  lemma EraseRemovesAccessedBytes(bytes: set<StoredByte>, start: int, n: nat)
    requires AllOwned(bytes)
    ensures EraseRange(bytes, start, start + n)
            == set b | b in bytes && !(start <= b.stackOffset < start + n)
  {
    var lhs := EraseRange(bytes, start, start + n);
    var rhs := set b | b in bytes && !(start <= b.stackOffset < start + n);
    forall b | b in bytes
      ensures b in lhs <==> b in rhs
    {
      assert b.store != NullStore;
    }
  }

  /** The bytes a store of `n` bytes at `start` records: (start + i, store, i) for i < n. */
  function StoreBytes(store: InstRef, start: int, n: nat): (r: set<StoredByte>)
    ensures forall b :: b in r <==> b.store == store && b.storeOffset < n
                                    && b.stackOffset == start + b.storeOffset
  {
    var r := set i: nat | i < n :: ByteOf(store, start, i);
    forall b: StoredByte | b.store == store && b.storeOffset < n && b.stackOffset == start + b.storeOffset
      ensures b in r
    {
      assert b == ByteOf(store, start, b.storeOffset);
    }
    r
  }

  /** Byte `i` of a store at `start`. */
  function ByteOf(store: InstRef, start: int, i: nat): StoredByte
  {
    StoredByte(start + i, store, i)
  }

  /**
   * One instruction of a basic block, as the transfer function sees it: a call to
   * an isolated function, a load or a store (with the stack offset of its
   * pointer, when known, and its access size), or anything else.
   */
  datatype Instruction =
    | IsolatedCall
    | Load(offset: Option<int>, size: nat)
    | Store(id: InstRef, offset: Option<int>, size: nat)
    | Other

  /** The effect of one instruction on the set of stored bytes. */
  function Step(bytes: set<StoredByte>, inst: Instruction): set<StoredByte>
  {
    match inst
    case IsolatedCall => {}
    case Other => bytes
    case Load(offset, size) =>
      if offset.None? then bytes else EraseRange(bytes, offset.value, offset.value + size)
    case Store(id, offset, size) =>
      if offset.None? then bytes
      else EraseRange(bytes, offset.value, offset.value + size) + StoreBytes(id, offset.value, size)
  }

  /** The transfer function of a whole block, instruction by instruction. */
  function Transfer(bytes: set<StoredByte>, block: seq<Instruction>): set<StoredByte>
  {
    if |block| == 0 then bytes else Step(Transfer(bytes, block[..|block| - 1]), block[|block| - 1])
  }

  /** A call to an isolated function forgets every byte. */
  lemma IsolatedCallClears(bytes: set<StoredByte>)
    ensures Step(bytes, IsolatedCall) == {}
  {
  }

  /**
   * An access of `n` bytes at `s` removes every byte recorded in [s, s + n); a
   * store then records exactly its own `n` bytes and a load records nothing.
   */
  lemma AccessEffect(bytes: set<StoredByte>, inst: Instruction)
    requires AllOwned(bytes)
    requires (inst.Load? || inst.Store?) && inst.offset.Some?
    ensures inst.Load? ==>
      Step(bytes, inst) == set b | b in bytes && !(inst.offset.value <= b.stackOffset < inst.offset.value + inst.size)
    ensures inst.Store? ==>
      Step(bytes, inst) == (set b | b in bytes && !(inst.offset.value <= b.stackOffset < inst.offset.value + inst.size))
                           + StoreBytes(inst.id, inst.offset.value, inst.size)
  {
    EraseRemovesAccessedBytes(bytes, inst.offset.value, inst.size);
  }

  /** Instructions whose pointer has no known stack offset leave the set as it is. */
  lemma UnknownOffsetKeeps(bytes: set<StoredByte>, inst: Instruction)
    requires (inst.Load? || inst.Store?) && inst.offset.None?
    ensures Step(bytes, inst) == bytes
  {
  }

  /** The transfer function never records a byte of the null store. */
  lemma {:induction false} TransferKeepsOwned(bytes: set<StoredByte>, block: seq<Instruction>)
    requires AllOwned(bytes)
    ensures AllOwned(Transfer(bytes, block))
  {
    if |block| > 0 {
      TransferKeepsOwned(bytes, block[..|block| - 1]);
    }
  }

  /**
   * After a store at a known offset, every byte of its range belongs to it:
   * the byte at s + i is exactly (s + i, store, i) and no other entry has that offset.
   */
  lemma StoreOwnsItsRange(bytes: set<StoredByte>, inst: Instruction, b: StoredByte)
    requires AllOwned(bytes)
    requires inst.Store? && inst.offset.Some?
    requires b in Step(bytes, inst)
    requires inst.offset.value <= b.stackOffset < inst.offset.value + inst.size
    ensures b == StoredByte(b.stackOffset, inst.id, b.stackOffset - inst.offset.value)
  {
    AccessEffect(bytes, inst);
  }

  /** `applyTransferFunction`: runs the block over a copy of the incoming set. */
  method ApplyTransferFunction(block: seq<Instruction>, value: set<StoredByte>)
    returns (stackBytes: set<StoredByte>)
    ensures stackBytes == Transfer(value, block)
  {
    stackBytes := value;
    for k := 0 to |block|
      invariant stackBytes == Transfer(value, block[..k])
    {
      assert block[..k + 1][..k] == block[..k];
      var inst := block[k];
      match inst {
        case IsolatedCall =>
          stackBytes := {};
        case Other =>
        case Load(offset, size) =>
          if offset.Some? {
            stackBytes := EraseRange(stackBytes, offset.value, offset.value + size);
          }
        case Store(id, offset, size) =>
          if offset.Some? {
            var start := offset.value;
            stackBytes := EraseRange(stackBytes, start, start + size);
            ghost var erased := stackBytes;
            for i := 0 to size
              invariant stackBytes == erased + StoreBytes(id, start, i)
            {
              assert StoreBytes(id, start, i + 1) == StoreBytes(id, start, i) + {StoredByte(start + i, id, i)};
              stackBytes := stackBytes + {StoredByte(start + i, id, i)};
            }
          }
      }
    }
    assert block[..|block|] == block;
  }

  // ---------------------------------------------------------------------------
  // The stack-argument redirector.

  /** One entry of the redirector's map: a span start, its size and the new base address. */
  datatype Span = Span(start: int64, size: uint64, base: InstRef)

  /** The map is kept in key order: span starts strictly increase. */
  ghost predicate KeysIncreasing(spans: seq<Span>)
  {
    forall i :: 0 < i < |spans| ==> spans[i - 1].start < spans[i].start
  }

  predicate HasKey(spans: seq<Span>, key: int)
  {
    exists i :: 0 <= i < |spans| && spans[i].start == key
  }

  /** `Map[Offset] = {Size, Base}` for an absent key: the entry goes to its place in key order. */
  function Inserted(spans: seq<Span>, x: Span): (r: seq<Span>)
    ensures |r| == |spans| + 1
    ensures forall s :: s in r <==> s in spans || s == x
    ensures KeysIncreasing(spans) && !HasKey(spans, x.start) ==> KeysIncreasing(r)
    ensures |spans| > 0 && |r| > 0 ==> r[0] == x || r[0] == spans[0]
  {
    if |spans| == 0 then [x]
    else if x.start < spans[0].start then [x] + spans
    else
      assert HasKey(spans, x.start) <== HasKey(spans[1..], x.start) by {
        if HasKey(spans[1..], x.start) {
          var i :| 0 <= i < |spans[1..]| && spans[1..][i].start == x.start;
          assert spans[i + 1].start == x.start;
        }
      }
      [spans[0]] + Inserted(spans[1..], x)
  }

  /**
   * `verify`: in key order, each span ends no later than the next one starts.
   * The size is converted to `int64_t` before the addition, as in the source.
   */
  ghost predicate AdjacentDisjoint(spans: seq<Span>)
  {
    forall i :: 0 < i < |spans| ==> spans[i - 1].start + AsInt64(spans[i - 1].size) <= spans[i].start
  }

  /** No two spans overlap, whichever pair is taken. */
  ghost predicate PairwiseDisjoint(spans: seq<Span>)
  {
    forall i, j :: 0 <= i < j < |spans| ==> spans[i].start + spans[i].size <= spans[j].start
  }

  /** Sizes that fit a signed 64-bit integer: the cast in `verify` keeps them. */
  ghost predicate SizesFitInt64(spans: seq<Span>)
  {
    forall i :: 0 <= i < |spans| ==> spans[i].size < TWO_TO_THE_63
  }

  /** Checking consecutive spans is enough: disjointness of neighbours gives disjointness of all pairs. */
  lemma {:induction false} AdjacentGivesPairwise(spans: seq<Span>)
    requires SizesFitInt64(spans)
    ensures AdjacentDisjoint(spans) <==> PairwiseDisjoint(spans)
  {
    if AdjacentDisjoint(spans) {
      forall i, j | 0 <= i < j < |spans|
        ensures spans[i].start + spans[i].size <= spans[j].start
      {
        AdjacentChain(spans, i, j);
      }
    }
    if PairwiseDisjoint(spans) {
      forall i | 0 < i < |spans|
        ensures spans[i - 1].start + AsInt64(spans[i - 1].size) <= spans[i].start
      {
        assert spans[i - 1].start + spans[i - 1].size <= spans[i].start;
      }
    }
  }

  lemma {:induction false} AdjacentChain(spans: seq<Span>, i: nat, j: nat)
    requires SizesFitInt64(spans) && AdjacentDisjoint(spans)
    requires i < j < |spans|
    ensures spans[i].start + spans[i].size <= spans[j].start
    decreases j - i
  {
    assert AsInt64(spans[j - 1].size) == spans[j - 1].size;
    if i < j - 1 {
      AdjacentChain(spans, i, j - 1);
    }
  }

  /** The index of the last span starting at or before `offset` (`--upper_bound(Offset)`). */
  function LastAtOrBefore(spans: seq<Span>, offset: int): (r: Option<nat>)
    ensures r.Some? ==> r.value < |spans| && spans[r.value].start <= offset
                        && forall j :: r.value < j < |spans| ==> spans[j].start > offset
    ensures r.None? ==> forall j :: 0 <= j < |spans| ==> spans[j].start > offset
  {
    if |spans| == 0 then None
    else if spans[|spans| - 1].start <= offset then Some(|spans| - 1)
    else LastAtOrBefore(spans[..|spans| - 1], offset)
  }

  /** [offset, offset + size) lies inside a span, with both ends representable as `int64_t`. */
  ghost predicate Contains(sp: Span, offset: int, size: nat)
  {
    InInt64(sp.start + sp.size) && InInt64(offset + size)
    && sp.start <= offset < sp.start + sp.size && offset + size <= sp.start + sp.size
  }

  /**
   * `computeNewBase`: the nearest span starting at or before `offset` must hold the
   * whole access; the answer is the distance from the span start and the span's base.
   */
  function NewBase(spans: seq<Span>, offset: int64, size: uint64): (r: Option<(uint64, InstRef)>)
    ensures LastAtOrBefore(spans, offset).None? ==> r.None?
    ensures r.Some? <==> LastAtOrBefore(spans, offset).Some?
                         && Contains(spans[LastAtOrBefore(spans, offset).value], offset, size)
    ensures r.Some? ==> var sp := spans[LastAtOrBefore(spans, offset).value];
                        sp.start + r.value.0 == offset && r.value.1 == sp.base
  {
    match LastAtOrBefore(spans, offset)
    case None => None
    case Some(i) =>
      var sp := spans[i];
      var spanEnd := sp.start + sp.size;
      var end := offset + size;
      if !InInt64(spanEnd) || !InInt64(end) || offset >= spanEnd || end > spanEnd then None
      else Some((offset - sp.start, sp.base))
  }

  /**
   * On a well-formed redirector the lookup is complete: whenever some span holds
   * the access, `computeNewBase` finds that span.
   */
  lemma NewBaseFindsContainingSpan(spans: seq<Span>, offset: int64, size: uint64, j: nat)
    requires KeysIncreasing(spans) && PairwiseDisjoint(spans)
    requires j < |spans| && Contains(spans[j], offset, size)
    ensures NewBase(spans, offset, size) == Some((offset - spans[j].start, spans[j].base))
  {
  }

  /** The redirector of one call site: `BaseOffset` and the spans recorded so far. */
  class StackAccessRedirector {
    const baseOffset: int64
    var spans: seq<Span>

    ghost predicate Valid()
      reads this
    {
      KeysIncreasing(spans)
    }

    constructor(baseOffset: int64)
      ensures Valid()
      ensures this.baseOffset == baseOffset && spans == []
    {
      this.baseOffset := baseOffset;
      spans := [];
    }

    /**
     * `recordSpan`: a span at `BaseOffset + Span.Offset`; the key must be absent and
     * the spans must still verify afterwards.
     */
    method RecordSpan(spanOffset: int64, spanSize: uint64, baseAddress: InstRef)
      requires Valid()
      requires InInt64(baseOffset + spanOffset)
      requires !HasKey(spans, baseOffset + spanOffset)
      requires AdjacentDisjoint(Inserted(spans, Span(baseOffset + spanOffset, spanSize, baseAddress)))
      modifies this
      ensures Valid() && AdjacentDisjoint(spans)
      ensures spans == Inserted(old(spans), Span(baseOffset + spanOffset, spanSize, baseAddress))
      ensures HasKey(spans, baseOffset + spanOffset)
    {
      var x := Span(baseOffset + spanOffset, spanSize, baseAddress);
      spans := Inserted(spans, x);
      assert x in spans;
    }

    /** `computeNewBase` on the current spans. */
    function ComputeNewBase(offset: int64, size: uint64): Option<(uint64, InstRef)>
      reads this
    {
      NewBase(spans, offset, size)
    }

    /** `verify`: walks the consecutive pairs of spans. */
    method Verify() returns (ok: bool)
      ensures ok <==> AdjacentDisjoint(spans)
    {
      if |spans| >= 2 {
        var k := 1;
        while k < |spans|
          invariant 1 <= k <= |spans|
          invariant forall i :: 0 < i < k ==> spans[i - 1].start + AsInt64(spans[i - 1].size) <= spans[i].start
        {
          var currentEnd := spans[k - 1].start + AsInt64(spans[k - 1].size);
          if currentEnd > spans[k].start {
            return false;
          }
          k := k + 1;
        }
      }
      return true;
    }
  }

  /** Every span recorded in turn is present with its own size and base. */
  lemma InsertedKeepsEntries(spans: seq<Span>, x: Span, s: Span)
    requires s in spans || s == x
    ensures s in Inserted(spans, x)
  {
  }

  // ---------------------------------------------------------------------------
  // The stores feeding a call site's stack arguments.

  /** `StoreInfo`: how many bytes of the store reach the call and its start offset. */
  datatype StoreInfo = StoreInfo(count: nat, offset: int)

  /** The number of bytes of `store` among `bytes`. */
  function CountOf(bytes: seq<StoredByte>, store: StorePtr): nat
  {
    if |bytes| == 0 then 0
    else CountOf(bytes[..|bytes| - 1], store) + (if bytes[|bytes| - 1].store == store then 1 else 0)
  }

  /** `Stores[Byte.Store]` updated byte after byte, in the set's order. */
  function Tally(bytes: seq<StoredByte>): map<StorePtr, StoreInfo>
  {
    if |bytes| == 0 then map[]
    else
      var prev := Tally(bytes[..|bytes| - 1]);
      var b := bytes[|bytes| - 1];
      var info := if b.store in prev then prev[b.store] else StoreInfo(0, 0);
      prev[b.store := StoreInfo(info.count + 1, b.stackOffset - b.storeOffset)]
  }

  /**
   * Every store with a byte in the block's final set has an entry whose count is
   * its number of bytes and whose offset is the start recorded by its last byte.
   */
  lemma {:induction false} TallyCounts(bytes: seq<StoredByte>, store: StorePtr)
    ensures store in Tally(bytes) <==> exists b :: b in bytes && b.store == store
    ensures store in Tally(bytes) ==> Tally(bytes)[store].count == CountOf(bytes, store)
    ensures store !in Tally(bytes) ==> CountOf(bytes, store) == 0
    ensures store in Tally(bytes) ==> exists b :: b in bytes && b.store == store
                                         && Tally(bytes)[store].offset == b.stackOffset - b.storeOffset
  {
    if |bytes| > 0 {
      var init := bytes[..|bytes| - 1];
      var b := bytes[|bytes| - 1];
      TallyCounts(init, store);
      assert bytes == init + [b];
      if b.store != store && store in Tally(bytes) {
        var c :| c in init && c.store == store && Tally(init)[store].offset == c.stackOffset - c.storeOffset;
        assert c in bytes;
      }
    }
  }

  /** The loop that fills `Stores` from the block's final set, in ascending order. */
  method CollectStores(bytes: seq<StoredByte>) returns (stores: map<StorePtr, StoreInfo>)
    ensures stores == Tally(bytes)
  {
    stores := map[];
    for k := 0 to |bytes|
      invariant stores == Tally(bytes[..k])
    {
      assert bytes[..k + 1][..k] == bytes[..k];
      var b := bytes[k];
      var info := if b.store in stores then stores[b.store] else StoreInfo(0, 0);
      stores := stores[b.store := StoreInfo(info.count + 1, b.stackOffset - b.storeOffset)];
    }
    assert bytes[..|bytes|] == bytes;
  }

  /** What `handleCallSite` does with one store. */
  datatype StoreAction =
    | Ignored                                  // only part of its bytes reach the call
    | Purged                                   // it saves the return address
    | Redirected(offset: uint64, base: InstRef) // it writes a stack argument
    | Kept                                     // none of the above

  /**
   * The decision for a store of `size` bytes. The argument offset is computed in
   * 64-bit arithmetic mixing `int64_t` and `size_t`, hence the reinterpretations.
   */
  function DecideStore(size: nat, info: StoreInfo, stackSizeAtCallSite: int64, pushSize: uint64,
                       spans: seq<Span>): StoreAction
  {
    var stackArgumentsOffset := AsInt64(info.offset + stackSizeAtCallSite - pushSize);
    var negativePushSize := AsInt64(-(pushSize as int));
    if size != info.count then Ignored
    else if stackArgumentsOffset == negativePushSize && size == pushSize then Purged
    else if InInt64(info.offset) && size < TWO_TO_THE_64 then
      match NewBase(spans, info.offset, size)
      case Some(p) => Redirected(p.0, p.1)
      case None => Kept
    else Kept
  }

  /**
   * A store is purged exactly when the call owns all of its bytes, it is as wide as
   * the pushed return address and it starts where the stack pointer stood before
   * the call (its offset plus the stack size at the call site is zero).
   */
  lemma PurgedIff(size: nat, info: StoreInfo, stackSizeAtCallSite: int64, pushSize: uint64,
                  spans: seq<Span>)
    requires InInt64(info.offset + stackSizeAtCallSite)
    ensures DecideStore(size, info, stackSizeAtCallSite, pushSize, spans) == Purged
            <==> size == info.count && size == pushSize && info.offset + stackSizeAtCallSite == 0
  {
    var a := info.offset + stackSizeAtCallSite;
    var lhs := AsInt64(a - pushSize);
    var rhs := AsInt64(-(pushSize as int));
    SameReinterpretation(a - pushSize, -(pushSize as int));
    assert lhs == rhs <==> a % TWO_TO_THE_64 == 0;
  }

  /** Two patterns reinterpret to the same `int64_t` iff they agree modulo 2^64. */
  lemma SameReinterpretation(x: int, y: int)
    ensures AsInt64(x) == AsInt64(y) <==> (x - y) % TWO_TO_THE_64 == 0
  {
  }

  /** A store not entirely owned by the call is ignored; an owned one is redirected iff a span holds it. */
  lemma DecideStoreCases(size: nat, info: StoreInfo, stackSizeAtCallSite: int64, pushSize: uint64,
                         spans: seq<Span>)
    requires InInt64(info.offset) && size < TWO_TO_THE_64
    ensures size != info.count ==> DecideStore(size, info, stackSizeAtCallSite, pushSize, spans) == Ignored
    ensures size == info.count && size != pushSize ==>
              (DecideStore(size, info, stackSizeAtCallSite, pushSize, spans).Redirected?
               <==> NewBase(spans, info.offset, size).Some?)
  {
  }

  // ---------------------------------------------------------------------------
  // Splitting and joining wide arguments.

  /** `shiftAmount`, in `unsigned` (32-bit) arithmetic exactly as written. */
  function ShiftAmount(offset: uint32, newSize: uint32, oldSize: uint32, littleEndian: bool): uint32
  {
    if newSize >= oldSize then 0
    else if littleEndian then Wrap32(offset * 8)
    else Wrap32(Wrap32(newSize - offset - oldSize) * 8)
  }

  /** The little-endian shift is the byte offset in bits; wider arguments are never shifted. */
  lemma ShiftAmountLittleEndian(offset: uint32, newSize: uint32, oldSize: uint32)
    requires offset * 8 < TWO_TO_THE_32
    ensures newSize >= oldSize ==> ShiftAmount(offset, newSize, oldSize, true) == 0
    ensures newSize < oldSize ==> ShiftAmount(offset, newSize, oldSize, true) == 8 * offset
  {
  }

  /**
   * On big-endian targets the branch is only reached with NewSize < OldSize, so
   * the unsigned subtraction always wraps: the shift is 2^32 minus eight times
   * the shortfall, far beyond the width of any register.
   */
  lemma ShiftAmountBigEndianWraps(offset: uint32, newSize: uint32, oldSize: uint32)
    requires newSize < oldSize
    requires oldSize + offset <= 0x1000_0000
    ensures ShiftAmount(offset, newSize, oldSize, false) == TWO_TO_THE_32 - 8 * (oldSize + offset - newSize)
    ensures ShiftAmount(offset, newSize, oldSize, false) >= 0x8000_0000
  {
    var d := oldSize + offset - newSize;
    assert Wrap32(newSize - offset - oldSize) == TWO_TO_THE_32 - d;
    assert (TWO_TO_THE_32 - d) * 8 == 7 * TWO_TO_THE_32 + (TWO_TO_THE_32 - 8 * d);
  }

  /** A 4-byte piece at offset 0 of an 8-byte value: the shift is 4294967264 instead of 32. */
  lemma ShiftAmountBigEndianExample()
    ensures ShiftAmount(0, 4, 8, false) == 4294967264
    ensures ShiftAmountIntended(0, 4, 8, false) == 32
  {
  }

  /**
   * The big-endian shift with the operands in the evident order: the piece of
   * NewSize bytes at byte Offset of an OldSize-byte value sits
   * OldSize - NewSize - Offset bytes above the least significant end.
   */
  function ShiftAmountIntended(offset: uint32, newSize: uint32, oldSize: uint32, littleEndian: bool): uint32
  {
    if newSize >= oldSize then 0
    else if littleEndian then Wrap32(offset * 8)
    else Wrap32(Wrap32(oldSize - newSize - offset) * 8)
  }

  /**
   * For a piece that lies inside the value, the intended shifts stay below the
   * value's width and the two byte orders mirror each other.
   */
  lemma ShiftAmountIntendedInRange(offset: uint32, newSize: uint32, oldSize: uint32)
    requires 0 < newSize < oldSize && offset + newSize <= oldSize
    requires oldSize * 8 < TWO_TO_THE_32
    ensures ShiftAmountIntended(offset, newSize, oldSize, false) == 8 * (oldSize - newSize - offset)
    ensures ShiftAmountIntended(offset, newSize, oldSize, false) < 8 * oldSize
    ensures ShiftAmountIntended(offset, newSize, oldSize, true)
            + ShiftAmountIntended(offset, newSize, oldSize, false) == 8 * (oldSize - newSize)
  {
  }
}
