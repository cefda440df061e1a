/** Native handles, the gralloc handle that lies inside one, and the conversion to and from
    the AIDL handle that travels between processes. */
module NativeHandles {
  import opened Bytes

  /** `native_handle_t`: the file descriptors first, then the integers. */
  datatype NativeHandle = NativeHandle(numFds: nat, numInts: nat, data: seq<Int32>)
  {
    ghost predicate Valid() { |data| == numFds + numInts }
  }

  /** `NativeHandle.aidl` */
  datatype AidlHandle = AidlHandle(fds: seq<Int32>, ints: seq<Int32>)

  /** `gralloc_handle_t`, the words behind the native handle's header. */
  datatype GrallocHandle = GrallocHandle(
    primeFd: Int32, magic: UInt32, version: UInt32, width: UInt32, height: UInt32, format: UInt32,
    usage: UInt32, stride: UInt32, dataOwner: Int32, modifierLow: UInt32, modifierHigh: UInt32,
    dataLow: UInt32, dataHigh: UInt32)

  const NUM_FDS := 1
  const NUM_INTS := 12
  const MAGIC: UInt32 := 0x60585350
  const VERSION: UInt32 := 4

  function Words(g: GrallocHandle): (w: seq<Int32>)
    ensures |w| == NUM_FDS + NUM_INTS
  {
    [g.primeFd, Signed32(g.magic), Signed32(g.version), Signed32(g.width), Signed32(g.height),
     Signed32(g.format), Signed32(g.usage), Signed32(g.stride), g.dataOwner, Signed32(g.modifierLow),
     Signed32(g.modifierHigh), Signed32(g.dataLow), Signed32(g.dataHigh)]
  }

  /** The cast `(struct gralloc_handle_t *)handle`. */
  function GrallocOf(w: seq<Int32>): GrallocHandle
    requires |w| >= NUM_FDS + NUM_INTS
  {
    GrallocHandle(w[0], Wrap32(w[1]), Wrap32(w[2]), Wrap32(w[3]), Wrap32(w[4]), Wrap32(w[5]), Wrap32(w[6]),
                  Wrap32(w[7]), w[8], Wrap32(w[9]), Wrap32(w[10]), Wrap32(w[11]), Wrap32(w[12]))
  }

  /** The words behind a native handle's header, in the order of `gralloc_handle_t`: 64-bit
      fields take two, the lower half first. */
  lemma WordsInOrder(g: GrallocHandle)
    ensures var w := Words(g);
            && |w| == 13
            && w[0] == g.primeFd && Wrap32(w[1]) == g.magic && Wrap32(w[2]) == g.version
            && Wrap32(w[3]) == g.width && Wrap32(w[4]) == g.height && Wrap32(w[5]) == g.format
            && Wrap32(w[6]) == g.usage && Wrap32(w[7]) == g.stride && w[8] == g.dataOwner
            && Wrap32(w[9]) == g.modifierLow && Wrap32(w[10]) == g.modifierHigh
            && Wrap32(w[11]) == g.dataLow && Wrap32(w[12]) == g.dataHigh
  {
  }

  lemma GrallocRoundTrip(g: GrallocHandle)
    ensures GrallocOf(Words(g)) == g
  {
  }

  function NativeOf(g: GrallocHandle): (h: NativeHandle)
    ensures h.Valid()
  {
    NativeHandle(NUM_FDS, NUM_INTS, Words(g))
  }

  /** The usage word as bits. */
  function Bits(usage: UInt32): bv32 { usage as bv32 }

  lemma BitsOfUsage(usage: UInt32)
    ensures Bits(usage) == usage as bv32
  {
  }

  // ---- toAidl and fromAidl ----

  /** What each side gets: the same descriptors, or for every one of them its duplicate. */
  function AidlOf(h: NativeHandle, doDup: bool, dups: seq<Int32>): AidlHandle
    requires h.Valid() && |dups| == h.numFds
  {
    AidlHandle(if doDup then dups else h.data[..h.numFds], h.data[h.numFds..])
  }

  function NativeFrom(a: AidlHandle, doDup: bool, dups: seq<Int32>): (h: NativeHandle)
    requires |dups| == |a.fds|
    ensures h.Valid()
  {
    NativeHandle(|a.fds|, |a.ints|, (if doDup then dups else a.fds) + a.ints)
  }

  /** In both directions the descriptors come first, one by one, and then the integers. */
  lemma FormsByWord(h: NativeHandle, a: AidlHandle, doDup: bool, dups: seq<Int32>, i: nat)
    requires h.Valid() && i < h.numFds + h.numInts
    ensures |dups| == h.numFds ==>
              var to := AidlOf(h, doDup, dups);
              && |to.fds| == h.numFds && |to.ints| == h.numInts
              && (if i < h.numFds then to.fds[i] == (if doDup then dups[i] else h.data[i])
                  else to.ints[i - h.numFds] == h.data[i])
    ensures |dups| == |a.fds| && i < |a.fds| + |a.ints| ==>
              var to := NativeFrom(a, doDup, dups);
              && to.numFds == |a.fds| && to.numInts == |a.ints|
              && to.data[i] == if i >= |a.fds| then a.ints[i - |a.fds|] else if doDup then dups[i] else a.fds[i]
  {
  }

  /** `dups[i]` is what `fcntl(F_DUPFD_CLOEXEC)` answers for descriptor i. */
  method ToAidl(h: NativeHandle, doDup: bool, dups: seq<Int32>) returns (to: AidlHandle)
    requires h.Valid() && |dups| == h.numFds
    ensures to == AidlOf(h, doDup, dups)
  {
    var fds := new Int32[h.numFds](_ => -1);
    for i := 0 to h.numFds
      invariant fds[..i] == if doDup then dups[..i] else h.data[..i]
    {
      var fd := h.data[i];
      fds[i] := if doDup then dups[i] else fd;
    }
    assert fds[..] == fds[..h.numFds];
    to := AidlHandle(fds[..], h.data[h.numFds..h.numFds + h.numInts]);
  }

  method FromAidl(a: AidlHandle, doDup: bool, dups: seq<Int32>) returns (to: NativeHandle)
    requires |dups| == |a.fds|
    ensures to == NativeFrom(a, doDup, dups)
  {
    var data := new Int32[|a.fds| + |a.ints|];
    ghost var fds := if doDup then dups else a.fds;
    for i := 0 to |a.fds|
      invariant data[..i] == fds[..i]
    {
      var fd := a.fds[i];
      data[i] := if doDup then dups[i] else fd;
    }
    for i := 0 to |a.ints|
      invariant data[..|a.fds|] == fds
      invariant data[|a.fds|..|a.fds| + i] == a.ints[..i]
    {
      data[|a.fds| + i] := a.ints[i];
    }
    assert data[..] == data[..|a.fds|] + data[|a.fds|..|a.fds| + |a.ints|];
    to := NativeHandle(|a.fds|, |a.ints|, data[..]);
  }

  /** Without duplication the two conversions undo each other; with it, there and back keeps
      the shape and every integer and replaces the descriptors by their latest duplicates. */
  lemma TransportKeepsHandle(h: NativeHandle, doDup: bool, there: seq<Int32>, back: seq<Int32>)
    requires h.Valid() && |there| == h.numFds == |back|
    ensures var h' := NativeFrom(AidlOf(h, doDup, there), doDup, back);
            && h'.numFds == h.numFds && h'.numInts == h.numInts
            && h'.data == (if doDup then back else h.data[..h.numFds]) + h.data[h.numFds..]
            && (!doDup ==> h' == h)
  {
    assert h.data == h.data[..h.numFds] + h.data[h.numFds..];
  }
}
