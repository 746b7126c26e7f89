# No-copy host accessor

A Dafny model of the host side of SYCL's experimental `nocopy_accessor`
(`sycl/include/CL/sycl/experimental/nocopy_accessor.hpp`). The accessor
covers a whole buffer, hands its adjusted access mode to the runtime, marks
itself "no copy", registers with the runtime and waits for all earlier work on
the buffer, and later returns a raw pointer into the buffer's own storage.

Three modules:

- `Access` (`access.dfy`): the values of `access::mode`, the `noinit`
  property and `getAdjustedMode`, a pure function. Its contract states the
  adjustment in terms of what a mode allows (read, write, atomic) and whether it
  discards prior contents; lemmas give the table entry by entry, idempotence,
  and that other properties are ignored.
- `LinearIndex` (`linear_index.dfy`): `Fold`, the row-major left fold
  `R := R * MemoryRange[i] + Offset[i] + Id[i]` on unbounded integers, the
  element count `Product`, and its inverse `Delinearize`. The lemmas prove that
  the index of an in-range coordinate is below the element count, that the map
  is injective, and that, with a zero offset, `Fold` and `Delinearize` are
  inverse to each other. Together these make the map, with a zero offset, a
  bijection between in-range coordinates and `[0, Product)`. `ModStep`
  carries the fold through `size_t` arithmetic modulo 2^64.
- `Nocopy` (`nocopy_accessor.dfy`): the accessor as a class with `const`
  geometry and mode and a mutable no-copy flag. `GetLinearIndex` is the
  `for` loop of `getLinearIndex`, proved equal to `Fold` modulo 2^64.
  `GetPointer` is `get_pointer`. `HostScheduler` stands in for the runtime's
  `addHostAccessorAndWait`: it keeps a ghost wait counter and a ghost list of
  registrations, each recording the mode and no-copy flag the runtime saw.
  `NewNocopyAccessor` and `GetPointerOn` choose between the host code and the
  device branch, which fails with `feature_not_supported`.
  `WriteNoInitScenario` and `ReadTwoDimensionalScenario` are usage examples:
  callers that build an accessor and check what its contracts let them
  conclude.

The base pointer is an abstract natural number (`Buffer.Data`). A pointer is
that number plus an element offset.

Notes on what the code does:

- `access::mode` also has `atomic`, which the adjustment passes through
  unchanged.
- The code makes no validity check on the runtime handle in the constructor,
  so the model has no "invalid handle" error.
- The object invariant is `Offset[i] + AccessRange[i] <= MemoryRange[i]`.
  The code allows a zero extent, so the model does not demand
  `Offset[i] < MemoryRange[i]`.

## Model

| member | source | states |
|---|---|---|
| `Access.HasNoInit` | sycl/include/CL/sycl/experimental/nocopy_accessor.hpp:40 | true exactly when some entry of the property list is `noinit` |
| `Access.AdjustedMode` | sycl/include/CL/sycl/experimental/nocopy_accessor.hpp:38-48 | the adjusted mode reads, writes and is atomic exactly when the requested mode is; it discards prior contents iff the requested mode does or `noinit` is present and the mode is `write` or `read_write` |
| `Access.ModeDeterminedByCapabilities` | sycl/include/CL/sycl/experimental/nocopy_accessor.hpp:38-48 | two modes agreeing on read, write, atomic and discard are equal, so AdjustedMode's contract fixes its result |
| `Access.NoInitDiscardsWrites` | sycl/include/CL/sycl/experimental/nocopy_accessor.hpp:40-45 | with `noinit`, `write` becomes `discard_write` and `read_write` becomes `discard_read_write` |
| `Access.NoInitKeepsOtherModes` | sycl/include/CL/sycl/experimental/nocopy_accessor.hpp:40-47 | with `noinit`, every mode other than `write` and `read_write` (`read` included) is returned unchanged |
| `Access.WithoutNoInitUnchanged` | sycl/include/CL/sycl/experimental/nocopy_accessor.hpp:38-48 | without `noinit` the adjusted mode is the requested `AccessMode` |
| `Access.AdjustedModeIdempotent` | sycl/include/CL/sycl/experimental/nocopy_accessor.hpp:38-48 | adjusting an adjusted mode again changes nothing |
| `Access.OtherPropertiesIgnored` | sycl/include/CL/sycl/experimental/nocopy_accessor.hpp:40 | adding any property other than `noinit` to the list does not change the adjusted mode |
| `LinearIndex.Fold` | sycl/include/CL/sycl/experimental/nocopy_accessor.hpp:55-58 | the loop's fold on unbounded integers; with positive extents it is 0 exactly when offset plus coordinate is the origin |
| `LinearIndex.Zeros` | sycl/include/CL/sycl/experimental/nocopy_accessor.hpp:88 | `id<AdjustedDim>()`: a coordinate of the given length with every entry 0 |
| `LinearIndex.Delinearize` | sycl/include/CL/sycl/experimental/nocopy_accessor.hpp:54-59 | the inverse of the row-major map: an n-entry coordinate with each entry inside its memory extent |
| `LinearIndex.FoldOrigin` | sycl/include/CL/sycl/experimental/nocopy_accessor.hpp:55-58 | with a zero offset the origin has linear index 0 |
| `LinearIndex.FoldBelowProduct` | sycl/include/CL/sycl/experimental/nocopy_accessor.hpp:55-58 | if `Offset[i] + Id[i] < MemoryRange[i]` in every dimension, the index is below the product of the memory extents |
| `LinearIndex.FoldInjective` | sycl/include/CL/sycl/experimental/nocopy_accessor.hpp:55-58 | two in-range coordinates with the same linear index are the same coordinate |
| `LinearIndex.FoldOfDelinearize` | sycl/include/CL/sycl/experimental/nocopy_accessor.hpp:55-58 | every index below the element count is the linear index of its delinearized coordinate (zero offset) |
| `LinearIndex.DelinearizeOfFold` | sycl/include/CL/sycl/experimental/nocopy_accessor.hpp:55-58 | delinearizing the linear index of an in-range coordinate gives back the coordinate (zero offset) |
| `LinearIndex.ModStep` | sycl/include/CL/sycl/experimental/nocopy_accessor.hpp:55-57 | reducing the `size_t` accumulator modulo 2^64 before a step does not change the step's result modulo 2^64 |
| `LinearIndex.FoldExamples` | sycl/include/CL/sycl/experimental/nocopy_accessor.hpp:55-58 | concrete cases: ranges [3,4], offset [1,0], id [1,2] give 10; [4],[0],[2] give 2; [10],[3] give 3 at id [0] and 6 at id [3] |
| `Nocopy.AdjustedDim` | sycl/include/CL/sycl/experimental/nocopy_accessor.hpp:34 | the addressing dimension is 1 when `Dimensions` is 0 and equals `Dimensions` otherwise |
| `Nocopy.ConvertToArrayOfN` | sycl/include/CL/sycl/experimental/nocopy_accessor.hpp:71-72 | n entries: the range's own entries first, the fill value after them |
| `Nocopy.PaddedRange` | sycl/include/CL/sycl/experimental/nocopy_accessor.hpp:71-72 | padding the buffer range with 1s keeps its leading extents and its element count |
| `Nocopy.HostScheduler.AddHostAccessorAndWait` | sycl/include/CL/sycl/experimental/nocopy_accessor.hpp:79 | one more wait, and one more registration recording the accessor's mode and no-copy flag at the time of the call |
| `Nocopy.NocopyAccessor.constructor` | sycl/include/CL/sycl/experimental/nocopy_accessor.hpp:62-80 | offset `[0,0,0]`; access and memory range both the buffer range padded to three entries with 1; mode `getAdjustedMode(PropertyList)`; no-copy set; exactly one wait, which already sees the no-copy flag set |
| `Nocopy.NocopyAccessor.GetLinearIndex` | sycl/include/CL/sycl/experimental/nocopy_accessor.hpp:54-59 | the loop computes the row-major fold modulo 2^64, and the fold exactly when it fits in `size_t` |
| `Nocopy.NocopyAccessor.GetPointer` | sycl/include/CL/sycl/experimental/nocopy_accessor.hpp:84-91 | base plus the linear index of the origin of `AdjustedDim`; the base itself under a zero offset; inside the buffer's storage when the origin is in range and the element count is at most 2^64; changes no state, so repeated calls agree |
| `Nocopy.NewNocopyAccessor` | sycl/include/CL/sycl/experimental/nocopy_accessor.hpp:64-68 | on a device target, fails with `feature_not_supported` and touches nothing; on the host, passes on every guarantee of the constructor: dimensions, requested and adjusted mode, zero offset, padded access and memory range, base address, exactly one wait and one registration with the no-copy flag set |
| `Nocopy.GetPointerOn` | sycl/include/CL/sycl/experimental/nocopy_accessor.hpp:84-91 | on a device target, fails with `feature_not_supported`; on the host, returns the host pointer, which is the base itself under a zero offset |

## Left out

- The blocking wait and dependency tracking behind `addHostAccessorAndWait`: the model counts waits and records registrations, nothing more.
- The internals of `AccessorBaseHost` and `AccessorImplHost`, reference counting of the implementation handle, and `getSyclObjImpl`. These are not part of this model.
- `reinterpret_cast`, address-space qualification and real pointer arithmetic: the base pointer is an abstract number, and advancing a pointer is addition on it.
- The element type and `sizeof(DataT)`: indices count elements, not bytes.
- `BufferRef.OffsetInBytes` and `IsSubBuffer`: they are passed straight to the base class and have no effect visible in this file.
- The template constraints (`IsSameAsBuffer`, `enable_if_t`, `AllocatorT`): they become the constructor's precondition that the buffer has `Dimensions` entries, with `Dimensions` from 1 to 3.
- The error code `PI_INVALID_OPERATION` that goes with `feature_not_supported`: the model keeps only the message.
