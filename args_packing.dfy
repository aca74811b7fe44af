/** Serialisation of the launch arguments into the shared-memory argument
    block: a header (count and per-argument sizes) followed by the argument
    bytes in order, the whole rounded up to 8 bytes and placed flush against
    ARGS_MEM_END_OFFSET. */
module ArgsPacking {
  import opened Platform
  import opened Hal

  /** Sum of the sizes of the first k arguments. */
  function SumTo(args: seq<Bytes>, k: nat): nat
    requires k <= |args|
  {
    if k == 0 then 0 else SumTo(args, k - 1) + |args[k - 1]|
  }

  /** The payload size: the sum of all argument sizes. */
  function ArgsSize(args: seq<Bytes>): nat
  {
    SumTo(args, |args|)
  }

  /** The header written for args: the count, then each size, unused slots zero. */
  function HeaderOf(args: seq<Bytes>): Header
  {
    Header(|args|, seq(MAX_ARGS, j requires 0 <= j => if j < |args| then |args[j]| else 0))
  }

  /** Header and payload size, accumulated in one pass over the arguments. */
  method PackHeader(args: seq<Bytes>) returns (argssize: nat, header: Header)
    requires |args| <= MAX_ARGS
    ensures argssize == ArgsSize(args)
    ensures header.nargs == |args| && |header.sizes| == MAX_ARGS
    ensures forall j :: 0 <= j < |args| ==> header.sizes[j] == |args[j]|
    ensures forall j :: |args| <= j < MAX_ARGS ==> header.sizes[j] == 0
    ensures header == HeaderOf(args)
  {
    argssize := 0;
    var sizes := seq(MAX_ARGS, j => 0);
    for i := 0 to |args|
      invariant argssize == SumTo(args, i)
      invariant |sizes| == MAX_ARGS
      invariant forall j :: 0 <= j < MAX_ARGS ==> sizes[j] == if j < i then |args[j]| else 0
    {
      argssize := argssize + |args[i]|;
      sizes := sizes[i := |args[i]|];
    }
    header := Header(|args|, sizes);
  }

  /** Round n up to the next multiple of 8, as `(n + 7) & ~7` does. */
  function RoundUp8(n: nat): (r: nat)
    ensures r % 8 == 0
    ensures n <= r < n + 8
  {
    (n + 7) - (n + 7) % 8
  }

  /** The mask `& ~7` clears the low three bits: it subtracts the remainder by 8. */
  lemma MaskClearsRemainder(x: bv32)
    ensures x & !7 == x - x % 8
  {
  }

  /** Size of the whole block for a payload of argssize bytes. */
  function TotalSize(argssize: nat): (t: nat)
    ensures t % 8 == 0
    ensures HEADER_SIZE + argssize <= t < HEADER_SIZE + argssize + 8
  {
    RoundUp8(HEADER_SIZE + argssize)
  }

  /** Offset of the argument block: flush against ARGS_MEM_END_OFFSET. */
  function BlockBase(totsize: int): int
  {
    ARGS_MEM_END_OFFSET - totsize
  }

  /** Offset, inside the block, at which argument k is written. */
  function ArgOffset(args: seq<Bytes>, k: nat): nat
    requires k <= |args|
  {
    HEADER_SIZE + SumTo(args, k)
  }

  /** The writes of arguments k.. into the block, in order. */
  function ArgWrites(args: seq<Bytes>, k: nat): seq<Op>
    requires k <= |args|
    decreases |args| - k
  {
    if k == |args| then [] else [WriteArg(ArgOffset(args, k), args[k])] + ArgWrites(args, k + 1)
  }

  /** All writes into the block: the header at offset 0, then every argument. */
  function PackWrites(args: seq<Bytes>): seq<Op>
  {
    [WriteHeader(HeaderOf(args))] + ArgWrites(args, 0)
  }

  /** Argument k ends where argument k + 1 begins, so the offsets never decrease. */
  lemma {:induction false} OffsetsMonotone(args: seq<Bytes>, k1: nat, k2: nat)
    requires k1 <= k2 <= |args|
    ensures ArgOffset(args, k1) <= ArgOffset(args, k2)
    ensures k1 < k2 ==> ArgOffset(args, k1) + |args[k1]| <= ArgOffset(args, k2)
    ensures k2 == k1 + 1 ==> ArgOffset(args, k1) + |args[k1]| == ArgOffset(args, k2)
    decreases k2 - k1
  {
    if k1 < k2 {
      OffsetsMonotone(args, k1 + 1, k2);
    }
  }

  /** The j-th argument write stores argument k + j at its offset. */
  lemma {:induction false} ArgWritesAt(args: seq<Bytes>, k: nat)
    requires k <= |args|
    ensures |ArgWrites(args, k)| == |args| - k
    ensures forall j :: 0 <= j < |args| - k ==>
      ArgWrites(args, k)[j] == WriteArg(ArgOffset(args, k + j), args[k + j])
    decreases |args| - k
  {
    if k < |args| {
      ArgWritesAt(args, k + 1);
      var w := ArgWrites(args, k);
      assert w == [WriteArg(ArgOffset(args, k), args[k])] + ArgWrites(args, k + 1);
      forall j | 0 < j < |args| - k
        ensures w[j] == WriteArg(ArgOffset(args, k + j), args[k + j])
      {
        assert w[j] == ArgWrites(args, k + 1)[j - 1];
      }
    }
  }

  /** The header is the first write of every launch, arguments or none. */
  lemma HeaderAtStart(args: seq<Bytes>)
    ensures |PackWrites(args)| == 1 + |args|
    ensures PackWrites(args)[0] == WriteHeader(HeaderOf(args))
  {
    ArgWritesAt(args, 0);
  }

  /** Block layout: the header occupies [0, HEADER_SIZE); argument k occupies
      [ArgOffset(k), ArgOffset(k) + size k), after the header and inside the
      block, and is disjoint from every later argument. */
  lemma BlockLayout(args: seq<Bytes>, k1: nat, k2: nat)
    requires k1 <= k2 < |args|
    ensures |PackWrites(args)| == 1 + |args|
    ensures PackWrites(args)[0] == WriteHeader(HeaderOf(args))
    ensures PackWrites(args)[1 + k1] == WriteArg(ArgOffset(args, k1), args[k1])
    ensures HEADER_SIZE <= ArgOffset(args, k1)
    ensures ArgOffset(args, k1) + |args[k1]| <= TotalSize(ArgsSize(args))
    ensures k1 < k2 ==> ArgOffset(args, k1) + |args[k1]| <= ArgOffset(args, k2)
    ensures ArgOffset(args, k2) + |args[k2]| <= TotalSize(ArgsSize(args))
  {
    ArgWritesAt(args, 0);
    OffsetsMonotone(args, 0, k1);
    OffsetsMonotone(args, k1, k2);
    OffsetsMonotone(args, k1 + 1, |args|);
    OffsetsMonotone(args, k2 + 1, |args|);
  }

  /** The payload ends exactly at HEADER_SIZE + ArgsSize, inside the rounded block. */
  lemma {:induction false} PayloadEnd(args: seq<Bytes>)
    ensures |PackWrites(args)| == 1 + |args|
    ensures |args| > 0 ==> ArgOffset(args, |args| - 1) + |args[|args| - 1]| == HEADER_SIZE + ArgsSize(args)
    ensures HEADER_SIZE + ArgsSize(args) <= TotalSize(ArgsSize(args))
  {
    ArgWritesAt(args, 0);
  }

  /** A payload within the ceiling yields a block that lies in memory, is
      8-byte aligned at both ends, and ends exactly at ARGS_MEM_END_OFFSET. */
  lemma BlockPlacement(argssize: nat)
    requires argssize <= MAX_ARGS_SIZE
    ensures 0 <= BlockBase(TotalSize(argssize))
    ensures BlockBase(TotalSize(argssize)) % 8 == 0
    ensures BlockBase(TotalSize(argssize)) + TotalSize(argssize) == ARGS_MEM_END_OFFSET
  {
  }
}
