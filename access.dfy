/**
  Access modes of a SYCL accessor and the adjustment a no-copy host accessor
  applies when its property list carries the `noinit` property.
 */
module Access {

  /** The values of `access::mode`. */
  datatype Mode = Read | Write | ReadWrite | DiscardWrite | DiscardReadWrite | Atomic

  /** An entry of a `property_list`: only `noinit` is recognised here. */
  datatype Property = NoInit | Other(name: string)

  type PropertyList = seq<Property>

  /** `PropertyList.has_property<property::noinit>()` */
  predicate HasNoInit(props: PropertyList): (b: bool)
    ensures b <==> exists i :: 0 <= i < |props| && props[i].NoInit?
  {
    NoInit in props
  }

  /** The accessor may read the buffer's elements. */
  predicate CanRead(m: Mode) {
    m != Write && m != DiscardWrite
  }

  /** The accessor may write the buffer's elements. */
  predicate CanWrite(m: Mode) {
    m != Read
  }

  /** The buffer's prior contents need not be made available to the accessor. */
  predicate IsDiscard(m: Mode) {
    m == DiscardWrite || m == DiscardReadWrite
  }

  /**
    `getAdjustedMode`: with `noinit`, `write` and `read_write` become their
    discard counterparts. The contract says what that means: what the accessor
    may do (read, write, atomically) never changes, and the only thing that can
    change is that prior contents are discarded, which happens exactly for a
    plain writing mode under `noinit`.
   */
  function AdjustedMode(accessMode: Mode, props: PropertyList): (r: Mode)
    ensures CanRead(r) == CanRead(accessMode)
    ensures CanWrite(r) == CanWrite(accessMode)
    ensures r.Atomic? == accessMode.Atomic?
    ensures IsDiscard(r) <==>
              IsDiscard(accessMode) || (HasNoInit(props) && (accessMode == Write || accessMode == ReadWrite))
  {
    if HasNoInit(props) then
      if accessMode == Write then DiscardWrite
      else if accessMode == ReadWrite then DiscardReadWrite
      else accessMode
    else
      accessMode
  }

  /** Two modes that agree on every capability are the same mode, so the
      contract of AdjustedMode determines its result. */
  lemma ModeDeterminedByCapabilities(a: Mode, b: Mode)
    requires CanRead(a) == CanRead(b) && CanWrite(a) == CanWrite(b)
    requires a.Atomic? == b.Atomic? && IsDiscard(a) == IsDiscard(b)
    ensures a == b
  {
  }

  /** With `noinit`, `write` yields `discard_write` and `read_write` yields
      `discard_read_write`. */
  lemma NoInitDiscardsWrites(props: PropertyList)
    requires HasNoInit(props)
    ensures AdjustedMode(Write, props) == DiscardWrite
    ensures AdjustedMode(ReadWrite, props) == DiscardReadWrite
  {
  }

  /** With `noinit`, every other mode is returned unchanged; in particular a
      read-only accessor never becomes a discarding one. */
  lemma NoInitKeepsOtherModes(m: Mode, props: PropertyList)
    requires HasNoInit(props)
    requires m != Write && m != ReadWrite
    ensures AdjustedMode(m, props) == m
  {
  }

  /** Without `noinit` the adjusted mode is the requested mode. */
  lemma WithoutNoInitUnchanged(m: Mode, props: PropertyList)
    requires !HasNoInit(props)
    ensures AdjustedMode(m, props) == m
  {
  }

  /** Adjusting an already adjusted mode changes nothing. */
  lemma AdjustedModeIdempotent(m: Mode, props: PropertyList)
    ensures AdjustedMode(AdjustedMode(m, props), props) == AdjustedMode(m, props)
  {
  }

  /** Properties other than `noinit` do not influence the adjustment. */
  lemma OtherPropertiesIgnored(m: Mode, props: PropertyList, name: string)
    ensures AdjustedMode(m, props + [Other(name)]) == AdjustedMode(m, props)
    ensures AdjustedMode(m, [Other(name)] + props) == AdjustedMode(m, props)
  {
    assert HasNoInit(props + [Other(name)]) == HasNoInit(props);
    assert HasNoInit([Other(name)] + props) == HasNoInit(props);
  }
}
