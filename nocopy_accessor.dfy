/**
  The host side of `experimental::nocopy_accessor`: an accessor over a whole
  buffer that hands out a raw pointer into the buffer's own storage after
  registering itself with the runtime and waiting for pending work.
 */
module Nocopy {
  import opened Access
  import opened LinearIndex

  /** Whether the code is compiled for the host or for a device. */
  datatype Target = Host | Device

  /** `feature_not_supported`, the exception thrown by device-compiled code. */
  datatype Error = FeatureNotSupported(message: string)

  datatype Result<T> = Ok(value: T) | Err(error: Error)

  /**
    The parts of a `buffer<T, Dims>` that the accessor uses: its range, and
    the address of the storage the runtime hands out for it, as an abstract
    number.
   */
  datatype Buffer = Buffer(Range: seq<nat>, Data: nat)

  /** One call of `addHostAccessorAndWait`: the accessor registered, and the
      mode and no-copy flag the runtime saw at that moment. */
  datatype Registration = Registration(accessor: object, mode: Mode, nocopy: bool)

  /** `AdjustedDim`: a zero-dimensional accessor is addressed as a
      one-dimensional one. */
  function AdjustedDim(dimensions: nat): (d: nat)
    ensures d >= 1
    ensures dimensions == 0 ==> d == 1
    ensures dimensions > 0 ==> d == dimensions
  {
    if dimensions == 0 then 1 else dimensions
  }

  /**
    `convertToArrayOfN<N, Fill>`: the first entries of a range, padded with
    `fill` (or cut) to n entries.
   */
  function ConvertToArrayOfN(n: nat, fill: nat, r: seq<nat>): (a: seq<nat>)
    ensures |a| == n
    ensures forall i :: 0 <= i < n && i < |r| ==> a[i] == r[i]
    ensures forall i :: |r| <= i < n ==> a[i] == fill
  {
    seq(n, i requires 0 <= i < n => if i < |r| then r[i] else fill)
  }

  /** Padding a range with 1s keeps its leading extents and its element count. */
  lemma {:induction false} PaddedRange(r: seq<nat>, n: nat)
    requires |r| <= n
    ensures ConvertToArrayOfN(n, 1, r)[..|r|] == r
    ensures Product(ConvertToArrayOfN(n, 1, r)) == Product(r)
  {
    var a := ConvertToArrayOfN(n, 1, r);
    assert a[..|r|] == r;
    if n == |r| {
      assert a == r;
    } else {
      PaddedRange(r, n - 1);
      assert a[..n - 1] == ConvertToArrayOfN(n - 1, 1, r);
    }
  }

  /**
    Stand-in for the runtime's scheduler. `addHostAccessorAndWait` blocks
    until every operation enqueued earlier on the buffer has completed; the
    model keeps only the count of such waits and what was registered.
   */
  class HostScheduler {
    ghost var Waits: nat
    ghost var HostAccessors: seq<Registration>

    constructor ()
      ensures Waits == 0 && HostAccessors == []
    {
      Waits := 0;
      HostAccessors := [];
    }

    /** `addHostAccessorAndWait(impl)`: one registration and one wait. */
    method AddHostAccessorAndWait(acc: NocopyAccessor)
      modifies this
      ensures Waits == old(Waits) + 1
      ensures HostAccessors == old(HostAccessors) + [Registration(acc, acc.Mode, acc.Nocopy)]
    {
      Waits := Waits + 1;
      HostAccessors := HostAccessors + [Registration(acc, acc.Mode, acc.Nocopy)];
    }
  }

  /**
    `nocopy_accessor<DataT, Dimensions, AccessMode>` on the host. The
    geometry and the mode are fixed when the accessor is built; only the
    no-copy flag is set afterwards, by the constructor's body.
   */
  class NocopyAccessor {
    /** The `Dimensions` template argument. */
    const Dimensions: nat
    /** The `AccessMode` template argument. */
    const RequestedMode: Mode
    /** The mode handed to the runtime: the adjusted one. */
    const Mode: Mode
    const Offset: seq<nat>
    const AccessRange: seq<nat>
    const MemoryRange: seq<nat>
    /** The base address `getPtr()` returns. */
    const Data: nat
    var Nocopy: bool

    /** Three-entry geometry whose accessible window lies inside the memory
        range, at most three dimensions, and the no-copy flag set. */
    ghost predicate Valid()
      reads this
    {
      && Dimensions <= 3
      && |Offset| == 3 && |AccessRange| == 3 && |MemoryRange| == 3
      && (forall i :: 0 <= i < 3 ==> Offset[i] + AccessRange[i] <= MemoryRange[i])
      && Nocopy
    }

    /**
      `nocopy_accessor(buffer&, property_list)` on the host: the accessor
      covers the whole buffer from the origin, stores the adjusted mode,
      marks itself no-copy and then registers with the runtime exactly once,
      waiting for pending work on the buffer.
     */
    constructor (dimensions: nat, accessMode: Mode, buffer: Buffer, props: PropertyList, sched: HostScheduler)
      requires 0 < dimensions <= 3 && |buffer.Range| == dimensions
      modifies sched
      ensures Valid()
      ensures Dimensions == dimensions && RequestedMode == accessMode
      ensures Offset == [0, 0, 0]
      ensures AccessRange == ConvertToArrayOfN(3, 1, buffer.Range)
      ensures MemoryRange == ConvertToArrayOfN(3, 1, buffer.Range)
      ensures MemoryRange[..Dimensions] == buffer.Range && Product(MemoryRange) == Product(buffer.Range)
      ensures Mode == AdjustedMode(accessMode, props)
      ensures Data == buffer.Data
      ensures Nocopy
      ensures sched.Waits == old(sched.Waits) + 1
      ensures sched.HostAccessors == old(sched.HostAccessors) + [Registration(this, Mode, true)]
    {
      Dimensions := dimensions;
      RequestedMode := accessMode;
      Offset := [0, 0, 0];
      AccessRange := ConvertToArrayOfN(3, 1, buffer.Range);
      MemoryRange := ConvertToArrayOfN(3, 1, buffer.Range);
      Mode := AdjustedMode(accessMode, props);
      Data := buffer.Data;
      Nocopy := false;
      new;
      PaddedRange(buffer.Range, 3);
      Nocopy := true;
      sched.AddHostAccessorAndWait(this);
    }

    /**
      `getLinearIndex(Id)`: the row-major fold of coordinate plus offset
      against the memory range, in `size_t` arithmetic.
     */
    method GetLinearIndex(id: seq<nat>) returns (r: nat)
      requires Valid()
      requires |id| <= 3
      ensures r == Fold(MemoryRange, Offset, id, |id|) % SizeTModulus
      ensures Fold(MemoryRange, Offset, id, |id|) < SizeTModulus ==> r == Fold(MemoryRange, Offset, id, |id|)
    {
      r := 0;
      var i := 0;
      while i < |id|
        invariant 0 <= i <= |id|
        invariant r == Fold(MemoryRange, Offset, id, i) % SizeTModulus
      {
        ModStep(Fold(MemoryRange, Offset, id, i), MemoryRange[i], Offset[i] + id[i]);
        r := (r * MemoryRange[i] + Offset[i] + id[i]) % SizeTModulus;
        i := i + 1;
      }
    }

    /**
      `get_pointer()` on the host: the base address advanced by the linear
      index of the origin. With a zero offset (as every constructed accessor
      has) that is the base address itself; with the origin inside the
      memory range it lies inside the buffer's storage.
     */
    method GetPointer() returns (p: nat)
      requires Valid()
      ensures p == Data + Fold(MemoryRange, Offset, Zeros(AdjustedDim(Dimensions)), AdjustedDim(Dimensions)) % SizeTModulus
      ensures (forall i :: 0 <= i < 3 ==> Offset[i] == 0) ==> p == Data
      ensures InRange(MemoryRange, Offset, Zeros(AdjustedDim(Dimensions)), AdjustedDim(Dimensions))
              && Product(MemoryRange[..AdjustedDim(Dimensions)]) <= SizeTModulus
              ==> Data <= p < Data + Product(MemoryRange[..AdjustedDim(Dimensions)])
    {
      var dims := AdjustedDim(Dimensions);
      var origin := Zeros(dims);
      var index := GetLinearIndex(origin);
      p := Data + index;
      if forall i :: 0 <= i < 3 ==> Offset[i] == 0 {
        FoldOrigin(MemoryRange, Offset, dims);
      }
      if InRange(MemoryRange, Offset, origin, dims) {
        FoldBelowProduct(MemoryRange, Offset, origin, dims);
      }
    }
  }

  /**
    `get_pointer()` under either compilation target: device-compiled code
    throws `feature_not_supported`; host code returns the host pointer.
   */
  method GetPointerOn(target: Target, acc: NocopyAccessor) returns (r: Result<nat>)
    requires acc.Valid()
    ensures target == Device ==>
              r == Err(FeatureNotSupported("nocopy_accessor.get_pointer() is not implemented on target device"))
    ensures target == Host ==>
              r.Ok? && r.value == acc.Data + Fold(acc.MemoryRange, acc.Offset, Zeros(AdjustedDim(acc.Dimensions)),
                                                  AdjustedDim(acc.Dimensions)) % SizeTModulus
    ensures target == Host && (forall i :: 0 <= i < 3 ==> acc.Offset[i] == 0) ==> r == Ok(acc.Data)
  {
    if target == Device {
      r := Err(FeatureNotSupported("nocopy_accessor.get_pointer() is not implemented on target device"));
    } else {
      var p := acc.GetPointer();
      r := Ok(p);
    }
  }

  /**
    Construction under either compilation target: device-compiled code
    throws `feature_not_supported` and touches nothing; host code builds the
    accessor.
   */
  method NewNocopyAccessor(target: Target, dimensions: nat, accessMode: Mode, buffer: Buffer,
                           props: PropertyList, sched: HostScheduler)
    returns (r: Result<NocopyAccessor>)
    requires 0 < dimensions <= 3 && |buffer.Range| == dimensions
    modifies sched
    ensures target == Device ==>
              r == Err(FeatureNotSupported("nocopy_accessor() is not implemented on target device"))
              && unchanged(sched)
    ensures target == Host ==>
              && r.Ok? && fresh(r.value) && r.value.Valid()
              && r.value.Dimensions == dimensions && r.value.RequestedMode == accessMode
              && r.value.Offset == [0, 0, 0]
              && r.value.AccessRange == ConvertToArrayOfN(3, 1, buffer.Range)
              && r.value.MemoryRange == ConvertToArrayOfN(3, 1, buffer.Range)
              && r.value.Mode == AdjustedMode(accessMode, props)
              && r.value.Data == buffer.Data
              && sched.Waits == old(sched.Waits) + 1
              && sched.HostAccessors == old(sched.HostAccessors) + [Registration(r.value, r.value.Mode, true)]
  {
    if target == Device {
      r := Err(FeatureNotSupported("nocopy_accessor() is not implemented on target device"));
    } else {
      var acc := new NocopyAccessor(dimensions, accessMode, buffer, props, sched);
      r := Ok(acc);
    }
  }

  /** Usage example: a caller that writes a whole one-dimensional buffer of
      four elements. */
  method WriteNoInitScenario()
  {
    var sched := new HostScheduler();
    var buffer := Buffer([4], 4096);
    var acc := new NocopyAccessor(1, Write, buffer, [NoInit], sched);
    assert acc.Mode == DiscardWrite;
    assert acc.MemoryRange == [4, 1, 1];
    var p1 := acc.GetPointer();
    var p2 := acc.GetPointer();
    assert p1 == p2 == 4096;
    assert sched.Waits == 1;
    var i := acc.GetLinearIndex([2]);
    assert i == 2;
  }

  /** Usage example: a caller reading a two-dimensional buffer; `noinit`
      does not turn a read into a discard. */
  method ReadTwoDimensionalScenario()
  {
    var sched := new HostScheduler();
    var buffer := Buffer([3, 4], 0);
    var acc := new NocopyAccessor(2, Read, buffer, [NoInit], sched);
    assert acc.Mode == Read;
    assert acc.MemoryRange == [3, 4, 1];
    var i := acc.GetLinearIndex([1, 2]);
    assert i == 6;
    var p := acc.GetPointer();
    assert p == 0;
  }
}
