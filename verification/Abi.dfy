/**
 The engine's WebAssembly boundary: `alloc`, `dealloc` and `evaluate` over linear memory, and
 the host's round trip across it.
 */
module Abi {
  import opened Wrappers
  import opened Words

  type Byte = bv8

  /** What the engine answers to the bytes of a request. */
  type Engine = seq<Byte> -> seq<Byte>

  /** The live regions: each start, with the size of the layout it was allocated under. */
  type Regions = map<nat, nat>

  const MAX_LEN: int := TWO_31 - 1

  /** The layout of a buffer: never empty. */
  function LayoutSize(len: int): nat {
    if len < 1 then 1 else len
  }

  /** No live region is empty or at address zero, and no two overlap. */
  ghost predicate Disjoint(live: Regions) {
    && (forall p :: p in live ==> 0 < p && 0 < live[p])
    && (forall p, q :: p in live && q in live && p < q ==> p + live[p] <= q)
  }

  /** Room for a new region: what any allocator guarantees of the address it picks. */
  ghost predicate Vacant(live: Regions, at: Word, size: nat) {
    && 0 < at && 0 < size && at + size <= TWO_32
    && forall p :: p in live ==> p + live[p] <= at || at + size <= p
  }

  lemma PlacedIsDisjoint(live: Regions, at: Word, size: nat)
    requires Disjoint(live) && Vacant(live, at, size)
    ensures at !in live && Disjoint(live[at := size])
    ensures live[at := size] - {at} == live
  {
  }

  function Zeros(n: nat): seq<Byte> {
    seq(n, _ => 0)
  }

  function Written(bytes: seq<Byte>, at: nat, data: seq<Byte>): seq<Byte>
    requires at + |data| <= |bytes|
  {
    bytes[..at] + data + bytes[at + |data|..]
  }

  /** The linear memory of one instance, and its allocator's live regions. */
  class Guest {
    var bytes: seq<Byte>
    var live: Regions

    constructor ()
      ensures bytes == [] && live == map[] && Valid()
    {
      bytes, live := [], map[];
    }

    /** Live regions are disjoint and inside the memory. */
    ghost predicate Valid()
      reads this
    {
      |bytes| <= TWO_32 && Disjoint(live) && forall p :: p in live ==> p + live[p] <= |bytes|
    }

    /** A region is placed at `at`, the memory growing when it has to. */
    method Place(size: nat, at: Word)
      requires Valid() && Vacant(live, at, size)
      modifies this
      ensures Valid() && live == old(live)[at := size]
      ensures old(bytes) <= bytes && at + size <= |bytes|
    {
      PlacedIsDisjoint(live, at, size);
      if |bytes| < at + size {
        bytes := bytes + Zeros(at + size - |bytes|);
      }
      live := live[at := size];
    }

    method Alloc(len: int, at: Word) returns (ptr: int)
      requires Valid() && Vacant(live, at, LayoutSize(len))
      modifies this
      ensures Valid() && live == old(live)[at := LayoutSize(len)] && ptr == AsI32(at)
      ensures old(bytes) <= bytes && at + LayoutSize(len) <= |bytes|
    {
      Place(LayoutSize(len), at);
      ptr := AsI32(at);
    }

    /** Only a live region may be freed, and only under the layout it was allocated with. */
    method Dealloc(ptr: int, len: int)
      requires Valid() && AsU32(ptr) in live && live[AsU32(ptr)] == LayoutSize(len)
      modifies this`live
      ensures Valid() && live == old(live) - {AsU32(ptr)}
    {
      live := live - {AsU32(ptr)};
    }

    /** Reads the request at its address, and leaves the answer in a region of its own. */
    method Evaluate(ptr: int, len: int, engine: Engine, at: Word) returns (packed: int)
      requires Valid() && 0 <= len && AsU32(ptr) in live && live[AsU32(ptr)] == LayoutSize(len)
      requires var answer := engine(bytes[AsU32(ptr)..AsU32(ptr) + len]);
        |answer| <= MAX_LEN && Vacant(live, at, LayoutSize(|answer|))
      modifies this
      ensures var answer := engine(old(bytes)[AsU32(ptr)..AsU32(ptr) + len]);
        && Valid() && live == old(live)[at := LayoutSize(|answer|)]
        && packed == Pack(at, |answer|)
        && |old(bytes)| <= |bytes| && at + |answer| <= |bytes| && bytes[at..at + |answer|] == answer
        && (forall i :: 0 <= i < |old(bytes)| && !(at <= i < at + |answer|) ==> bytes[i] == old(bytes)[i])
    {
      var answer := engine(bytes[AsU32(ptr)..AsU32(ptr) + len]);
      Place(LayoutSize(|answer|), at);
      bytes := Written(bytes, at, answer);
      packed := Pack(at, |answer|);
    }
  }

  // ---------------------------------------------------------------
  // A host's round trip
  // ---------------------------------------------------------------

  /** How one evaluation goes: it runs out of fuel, or answers into a region placed there. */
  datatype Run = Traps | Answers(at: Word)

  /** One request, and where the guest's allocator puts it. */
  datatype Trip = Trip(request: seq<Byte>, at: Word, run: Run)

  datatype HostError = TooLarge | WriteFailed | Trapped | ReadFailed

  /** The allocator's choices are ones it could make, and the answer is no longer than a buffer can be. */
  ghost predicate Possible(live: Regions, t: Trip, engine: Engine) {
    |t.request| <= MAX_LEN ==>
      var size := LayoutSize(|t.request|);
      && Vacant(live, t.at, size)
      && (t.run.Answers? ==>
            && |engine(t.request)| <= MAX_LEN
            && Vacant(live[t.at := size], t.run.at, LayoutSize(|engine(t.request)|)))
  }

  /** What the host is told. */
  function Reply(t: Trip, engine: Engine): Result<seq<Byte>, HostError> {
    if |t.request| > MAX_LEN then Err(TooLarge)
    else if IsHigh(t.at) then Err(WriteFailed)
    else if t.run.Traps? then Err(Trapped)
    else if IsHigh(t.run.at) then Err(ReadFailed)
    else Ok(engine(t.request))
  }

  /** Every byte of the answer comes back, or an error: the first obstacle on the way out and back. */
  lemma ReplyIff(t: Trip, engine: Engine)
    ensures Reply(t, engine).Ok?
       <==> |t.request| < 0x8000_0000 && t.at < 0x8000_0000 && t.run.Answers? && t.run.at < 0x8000_0000
    ensures Reply(t, engine).Ok? ==> Reply(t, engine).value == engine(t.request)
    ensures Reply(t, engine) == Err(TooLarge) <==> |t.request| >= 0x8000_0000
    ensures Reply(t, engine) == Err(WriteFailed) <==> |t.request| < 0x8000_0000 && t.at >= 0x8000_0000
    ensures Reply(t, engine) == Err(Trapped)
      <==> |t.request| < 0x8000_0000 && t.at < 0x8000_0000 && t.run.Traps?
  {
  }

  /** A layout holds the buffer, and is no larger than it needs to be to hold at least one byte. */
  lemma LayoutIsSmallest(len: int, size: nat)
    ensures size >= LayoutSize(len) <==> size >= 1 && size >= len
  {
  }

  /** The request was allocated but could not be written: the host gives up without freeing it. */
  predicate Leaks(t: Trip) {
    |t.request| <= MAX_LEN && IsHigh(t.at)
  }

  function LiveAfter(live: Regions, t: Trip): Regions {
    if Leaks(t) then live[t.at := LayoutSize(|t.request|)] else live
  }

  /** The address is in neither of the trip's regions. */
  ghost predicate Elsewhere(t: Trip, engine: Engine, i: nat) {
    && !(t.at <= i < t.at + |t.request|)
    && (t.run.Answers? ==> !(t.run.at <= i < t.run.at + |engine(t.request)|))
  }

  /** A host's copy into guest memory; an offset outside it is an error. */
  method WriteMemory(guest: Guest, ptr: int, data: seq<Byte>) returns (ok: bool)
    requires guest.Valid() && -TWO_31 <= ptr < TWO_31
    modifies guest`bytes
    ensures guest.Valid() && ok == (HostOffset(ptr) + |data| <= |old(guest.bytes)|)
    ensures guest.bytes == if ok then Written(old(guest.bytes), HostOffset(ptr), data) else old(guest.bytes)
  {
    ok := HostOffset(ptr) + |data| <= |guest.bytes|;
    if ok {
      guest.bytes := Written(guest.bytes, HostOffset(ptr), data);
    }
  }

  /** A host's copy out of guest memory: what lies at a low address inside it, and never anything at a high one. */
  method ReadMemory(guest: Guest, ptr: int, len: int) returns (read: Option<seq<Byte>>)
    requires guest.Valid() && -TWO_31 <= ptr < TWO_31 && 0 <= len
    ensures read.Some? <==> 0 <= ptr && ptr + len <= |guest.bytes|
    ensures read.Some? ==> |read.value| == len && forall i :: 0 <= i < len ==> read.value[i] == guest.bytes[ptr + i]
  {
    read := if HostOffset(ptr) + len <= |guest.bytes|
            then Some(guest.bytes[HostOffset(ptr)..HostOffset(ptr) + len]) else None;
  }

  lemma SameBytes(bytes: seq<Byte>, at: nat, data: seq<Byte>, read: seq<Byte>)
    requires at + |data| <= |bytes| && bytes[at..at + |data|] == data && |read| == |data|
    requires forall i :: 0 <= i < |data| ==> read[i] == bytes[at + i]
    ensures read == data
  {
    forall i | 0 <= i < |data| ensures read[i] == data[i] {
      assert bytes[at..at + |data|][i] == bytes[at + i];
    }
  }

  /** The answer read out through its unpacked pointer and length. */
  method Collect(guest: Guest, packed: int, out: Word, answer: seq<Byte>)
    returns (outPtr: int, outLen: int, read: Option<seq<Byte>>)
    requires guest.Valid() && |answer| <= MAX_LEN && packed == Pack(out, |answer|)
    requires out + |answer| <= |guest.bytes| && guest.bytes[out..out + |answer|] == answer
    ensures AsU32(outPtr) == out && outLen == |answer|
    ensures read == if IsHigh(out) then None else Some(answer)
  {
    UnpackedAnswer(out, |answer|);
    var (ptr, len) := Unpack(packed);
    outPtr, outLen := ptr, len;
    read := ReadMemory(guest, outPtr, outLen);
    if read.Some? {
      SameBytes(guest.bytes, out, answer, read.value);
    }
  }

  /** The two frees of a round trip: the request's buffer and the answer's. */
  method FreeBoth(guest: Guest, ptr: int, len: int, outPtr: int, outLen: int)
    requires guest.Valid() && AsU32(ptr) != AsU32(outPtr)
    requires AsU32(ptr) in guest.live && guest.live[AsU32(ptr)] == LayoutSize(len)
    requires AsU32(outPtr) in guest.live && guest.live[AsU32(outPtr)] == LayoutSize(outLen)
    modifies guest`live
    ensures guest.Valid() && guest.live == old(guest.live) - {AsU32(ptr), AsU32(outPtr)}
  {
    guest.Dealloc(ptr, len);
    guest.Dealloc(outPtr, outLen);
    assert guest.live == old(guest.live) - {AsU32(ptr), AsU32(outPtr)};
  }

  /** Everything after the request is in place: evaluate, read the answer, free both buffers. */
  method Exchange(guest: Guest, request: seq<Byte>, ptr: int, out: Word, engine: Engine)
    returns (read: Option<seq<Byte>>)
    requires guest.Valid() && |request| <= MAX_LEN && |engine(request)| <= MAX_LEN
    requires AsU32(ptr) in guest.live && guest.live[AsU32(ptr)] == LayoutSize(|request|)
    requires guest.bytes[AsU32(ptr)..AsU32(ptr) + |request|] == request
    requires Vacant(guest.live, out, LayoutSize(|engine(request)|))
    modifies guest
    ensures guest.Valid() && guest.live == old(guest.live) - {AsU32(ptr)}
    ensures read == if IsHigh(out) then None else Some(engine(request))
    ensures |old(guest.bytes)| <= |guest.bytes|
    ensures forall i :: 0 <= i < |old(guest.bytes)| && !(out <= i < out + |engine(request)|) ==>
      guest.bytes[i] == old(guest.bytes)[i]
  {
    var answer := engine(request);
    PlacedIsDisjoint(guest.live, out, LayoutSize(|answer|));
    var packed := guest.Evaluate(ptr, |request|, engine, out);
    var outPtr, outLen, reply := Collect(guest, packed, out, answer);
    FreeBoth(guest, ptr, |request|, outPtr, outLen);
    read := reply;
  }

  /** The request's buffer allocated, and the request written into it unless its address is high. */
  method Send(guest: Guest, request: seq<Byte>, at: Word) returns (ptr: int, written: bool)
    requires guest.Valid() && |request| <= MAX_LEN && Vacant(guest.live, at, LayoutSize(|request|))
    modifies guest
    ensures guest.Valid() && guest.live == old(guest.live)[at := LayoutSize(|request|)]
    ensures at !in old(guest.live) && guest.live - {at} == old(guest.live)
    ensures AsU32(ptr) == at && (written <==> !IsHigh(at))
    ensures |old(guest.bytes)| <= |guest.bytes| && at + |request| <= |guest.bytes|
    ensures written ==> guest.bytes[at..at + |request|] == request
    ensures forall i :: 0 <= i < |old(guest.bytes)| && !(at <= i < at + |request|) ==>
      guest.bytes[i] == old(guest.bytes)[i]
  {
    WordsAndSigns(at);
    PlacedIsDisjoint(guest.live, at, LayoutSize(|request|));
    ptr := guest.Alloc(|request|, at);
    written := WriteMemory(guest, ptr, request);
  }

  /**
   The engine's answer comes back exactly when both addresses are low; only a request at a
   high address leaves anything allocated, and nothing outside the two regions changes.
   */
  method RoundTrip(guest: Guest, t: Trip, engine: Engine) returns (r: Result<seq<Byte>, HostError>)
    requires guest.Valid() && Possible(guest.live, t, engine)
    modifies guest
    ensures guest.Valid() && guest.live == LiveAfter(old(guest.live), t)
    ensures r == Reply(t, engine)
    ensures |old(guest.bytes)| <= |guest.bytes|
    ensures forall i :: 0 <= i < |old(guest.bytes)| && Elsewhere(t, engine, i) ==> guest.bytes[i] == old(guest.bytes)[i]
  {
    if |t.request| > MAX_LEN {
      return Err(TooLarge);
    }
    var len := |t.request|;
    var ptr, written := Send(guest, t.request, t.at);
    if !written {
      return Err(WriteFailed);
    }
    if t.run.Traps? {
      guest.Dealloc(ptr, len);
      return Err(Trapped);
    }
    var read := Exchange(guest, t.request, ptr, t.run.at, engine);
    return if read.None? then Err(ReadFailed) else Ok(read.value);
  }

  // ---------------------------------------------------------------
  // Many round trips
  // ---------------------------------------------------------------

  ghost predicate PossibleRun(live: Regions, trips: seq<Trip>, engine: Engine)
    decreases |trips|
  {
    trips == [] || (Possible(live, trips[0], engine) && PossibleRun(LiveAfter(live, trips[0]), trips[1..], engine))
  }

  function LiveAfterAll(live: Regions, trips: seq<Trip>): Regions
    decreases |trips|
  {
    if trips == [] then live else LiveAfterAll(LiveAfter(live, trips[0]), trips[1..])
  }

  /**
   Over any run live regions stay disjoint and none that was live is lost; the run returns
   the live regions to what they were exactly when none of its requests leaked.
   */
  lemma {:induction false} RunsConserveRegions(live: Regions, trips: seq<Trip>, engine: Engine)
    requires Disjoint(live) && PossibleRun(live, trips, engine)
    ensures Disjoint(LiveAfterAll(live, trips))
    ensures forall p :: p in live ==> p in LiveAfterAll(live, trips) && LiveAfterAll(live, trips)[p] == live[p]
    ensures LiveAfterAll(live, trips) == live <==> forall k :: 0 <= k < |trips| ==> !Leaks(trips[k])
    decreases |trips|
  {
    if trips != [] {
      var next := LiveAfter(live, trips[0]);
      if Leaks(trips[0]) {
        PlacedIsDisjoint(live, trips[0].at, LayoutSize(|trips[0].request|));
        assert trips[0].at in next && trips[0].at !in live;
      }
      RunsConserveRegions(next, trips[1..], engine);
      assert forall k :: 0 < k < |trips| ==> trips[k] == trips[1..][k - 1];
    }
  }

  /** An empty request placed at the lowest high address: possible on an idle guest, and lost. */
  lemma HighRequestLeaks(engine: Engine) returns (t: Trip)
    ensures Possible(map[], t, engine) && Leaks(t) && Reply(t, engine) == Err(WriteFailed)
    ensures PossibleRun(map[], [t], engine) && LiveAfterAll(map[], [t]) == map[TWO_31 := 1]
  {
    t := Trip([], TWO_31, Traps);
    assert Vacant(map[], TWO_31, 1);
    assert [t][1..] == [];
    var after := LiveAfter(map[], t);
    assert LiveAfterAll(map[], [t]) == LiveAfterAll(after, [t][1..]);
  }

  method Serve(guest: Guest, trips: seq<Trip>, engine: Engine) returns (replies: seq<Result<seq<Byte>, HostError>>)
    requires guest.Valid() && PossibleRun(guest.live, trips, engine)
    modifies guest
    ensures guest.Valid() && guest.live == LiveAfterAll(old(guest.live), trips)
    ensures |replies| == |trips| && forall k :: 0 <= k < |trips| ==> replies[k] == Reply(trips[k], engine)
    ensures (forall k :: 0 <= k < |trips| ==> !Leaks(trips[k])) ==> guest.live == old(guest.live)
  {
    RunsConserveRegions(guest.live, trips, engine);
    replies := [];
    for k := 0 to |trips|
      invariant guest.Valid() && PossibleRun(guest.live, trips[k..], engine)
      invariant LiveAfterAll(guest.live, trips[k..]) == LiveAfterAll(old(guest.live), trips)
      invariant |replies| == k && forall j :: 0 <= j < k ==> replies[j] == Reply(trips[j], engine)
    {
      assert trips[k..][1..] == trips[k + 1..];
      var reply := RoundTrip(guest, trips[k], engine);
      replies := replies + [reply];
    }
  }
}
