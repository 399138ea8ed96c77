/**
 * The descriptor manager: a validated region header together with the
 * address it was read from. It is built only when the header and every slot
 * it declares validate, and it caches nothing else: each query reads the
 * slot array from memory again.
 */
module RegionManager {
  import opened ByteLayout
  import opened Crc32Cksum
  import opened ParseErrors
  import opened AppImage
  import opened RegionHeader

  /** The descriptor of slot i of the array the header points to. */
  function SlotAt(mem: Memory, h: BootableRegionDescriptorHeader, i: u32): (r: Result<AppImageDescriptor>)
  {
    AppImageDescriptor.FromRegion(mem, h.appDescriptorBaseAddress as nat, i)
  }

  /** Every slot below k holds a CRC-valid descriptor. */
  predicate SlotsValidBelow(mem: Memory, h: BootableRegionDescriptorHeader, k: u32)
  {
    forall i: u32 :: i < k ==> SlotAt(mem, h, i).Ok?
  }

  /** Every slot the header declares holds a CRC-valid descriptor. */
  predicate AllSlotsValid(mem: Memory, h: BootableRegionDescriptorHeader)
  {
    SlotsValidBelow(mem, h, h.numAppSlots)
  }

  /**
   * The slot loop of construction: reads slots 0, 1, ... of the array `h`
   * points to and stops at the first whose CRC fails, returning its error.
   */
  method ValidateSlots(mem: Memory, h: BootableRegionDescriptorHeader) returns (r: Result<BootableRegionDescriptorHeader>)
    ensures r.Ok? <==> AllSlotsValid(mem, h)
    ensures r.Ok? ==> r.value == h
    ensures r.Err? ==>
      exists i: u32 :: i < h.numAppSlots && SlotsValidBelow(mem, h, i) && SlotAt(mem, h, i) == Err(r.error)
  {
    var i: u32 := 0;
    while i < h.numAppSlots
      invariant i <= h.numAppSlots
      invariant SlotsValidBelow(mem, h, i)
    {
      var appImageDescriptor := AppImageDescriptor.FromRegion(mem, h.appDescriptorBaseAddress as nat, i);
      if appImageDescriptor.Err? {
        assert SlotAt(mem, h, i) == appImageDescriptor;
        return Err(appImageDescriptor.error);
      }
      i := i + 1;
    }
    return Ok(h);
  }

  datatype BootableRegionDescriptors = BootableRegionDescriptors(
    baseAddress: nat,
    header: BootableRegionDescriptorHeader)
  {
    /**
     * Memory still holds what construction validated: the header at
     * baseAddress and a CRC-valid descriptor in every declared slot.
     */
    predicate Valid(mem: Memory)
    {
      && BootableRegionDescriptorHeader.FromAddress(mem, baseAddress) == Ok(header)
      && AllSlotsValid(mem, header)
    }

    /**
     * Loads the region whose header is at `address`: parses the header, then
     * reads every declared slot in order and stops at the first one that
     * fails its CRC. Succeeds only when all of them validate.
     */
    static method FromAddress(mem: Memory, address: nat) returns (r: Result<BootableRegionDescriptors>)
      ensures var hr := BootableRegionDescriptorHeader.FromAddress(mem, address);
        && (hr.Err? ==> r == Err(hr.error))
        && (hr.Ok? ==> (r.Ok? <==> AllSlotsValid(mem, hr.value)))
        && (r.Ok? ==> r.value == BootableRegionDescriptors(address, hr.value) && r.value.Valid(mem))
        && (hr.Ok? && r.Err? ==>
              exists i: u32 :: i < hr.value.numAppSlots
                && SlotsValidBelow(mem, hr.value, i)
                && SlotAt(mem, hr.value, i) == Err(r.error))
    {
      var header :- BootableRegionDescriptorHeader.FromAddress(mem, address);
      var loaded := BootableRegionDescriptors(address, header);
      var _ :- ValidateSlots(mem, header);
      return Ok(loaded);
    }

    /**
     * The descriptor of the active slot. It cannot fail while memory still
     * holds what construction validated.
     */
    function GetActiveSlot(mem: Memory): (d: AppImageDescriptor)
      requires Valid(mem)
      ensures d.IsCrcValid()
      ensures d.AsBytes() == Read(mem, header.appDescriptorBaseAddress as nat
                                     + header.activeAppSlot as nat * APP_IMAGE_DESCRIPTOR_SIZE,
                                  APP_IMAGE_DESCRIPTOR_SIZE)
    {
      assert SlotAt(mem, header, header.activeAppSlot).Ok?;
      AppImageDescriptor.FromRegion(mem, header.appDescriptorBaseAddress as nat, header.activeAppSlot).value
    }

    /**
     * The descriptor of slot `appSlot`, re-read from memory: InvalidAppSlot
     * for a slot the header does not declare, otherwise whatever the slot
     * now holds.
     */
    function GetAppAtSlot(mem: Memory, appSlot: u32): (r: Result<AppImageDescriptor>)
      ensures r == Err(InvalidAppSlot) <==> appSlot >= header.numAppSlots
      ensures var address := header.appDescriptorBaseAddress as nat + appSlot as nat * APP_IMAGE_DESCRIPTOR_SIZE;
        var raw := Read(mem, address, APP_IMAGE_DESCRIPTOR_SIZE);
        && (r.Ok? <==> appSlot < header.numAppSlots && AppImageDescriptor.FromBytes(raw).IsCrcValid())
        && (r.Ok? ==> r.value.IsCrcValid() && r.value.AsBytes() == raw)
        && (appSlot < header.numAppSlots && r.Err? ==>
              && r.error.InvalidAppCrc?
              && r.error.address == address
              && r.error.found != r.error.expected
              && LeBytes(r.error.found) == raw[APP_IMAGE_DESCRIPTOR_SIZE - 4..]
              && r.error.expected == Crc32(raw[..APP_IMAGE_DESCRIPTOR_SIZE - 4]))
    {
      if appSlot >= header.numAppSlots then
        Err(InvalidAppSlot)
      else
        AppImageDescriptor.FromRegion(mem, header.appDescriptorBaseAddress as nat, appSlot)
    }
  }

  /**
   * While memory holds what construction validated, exactly the declared
   * slots can be fetched.
   */
  lemma DeclaredSlotsFetch(m: BootableRegionDescriptors, mem: Memory, appSlot: u32)
    requires m.Valid(mem)
    ensures m.GetAppAtSlot(mem, appSlot).Ok? <==> appSlot < m.header.numAppSlots
  {
    if appSlot < m.header.numAppSlots {
      assert SlotAt(mem, m.header, appSlot).Ok?;
    }
  }

  /** The active slot is one of the declared slots, and fetching it by number gives the same descriptor. */
  lemma ActiveSlotIsDeclared(m: BootableRegionDescriptors, mem: Memory)
    requires m.Valid(mem)
    ensures m.header.activeAppSlot < m.header.numAppSlots
    ensures m.GetAppAtSlot(mem, m.header.activeAppSlot) == Ok(m.GetActiveSlot(mem))
  {
    assert SlotAt(mem, m.header, m.header.activeAppSlot).Ok?;
  }

  /** A write outside the slot array leaves a valid slot valid. */
  lemma SlotPastWrite(mem: Memory, h: BootableRegionDescriptorHeader, i: u32, at: nat, bs: seq<u8>)
    requires i < h.numAppSlots && SlotAt(mem, h, i).Ok?
    requires var slots := h.appDescriptorBaseAddress as nat;
      at + |bs| <= slots || slots + h.numAppSlots as nat * APP_IMAGE_DESCRIPTOR_SIZE <= at
    ensures SlotAt(Write(mem, at, bs), h, i).Ok?
  {
    var address := h.appDescriptorBaseAddress as nat + i as nat * APP_IMAGE_DESCRIPTOR_SIZE;
    assert (i as nat + 1) * APP_IMAGE_DESCRIPTOR_SIZE <= h.numAppSlots as nat * APP_IMAGE_DESCRIPTOR_SIZE;
    ReadPastWrite(mem, at, bs, address, APP_IMAGE_DESCRIPTOR_SIZE);
  }

  /**
   * A write that touches neither the header nor the declared slot array
   * leaves a validated region valid, so the active slot can still be fetched.
   */
  lemma ValidPastWrite(m: BootableRegionDescriptors, mem: Memory, at: nat, bs: seq<u8>)
    requires m.Valid(mem)
    requires at + |bs| <= m.baseAddress || m.baseAddress + BOOT_REGION_DESCRIPTOR_SIZE <= at
    requires var slots := m.header.appDescriptorBaseAddress as nat;
      at + |bs| <= slots || slots + m.header.numAppSlots as nat * APP_IMAGE_DESCRIPTOR_SIZE <= at
    ensures m.Valid(Write(mem, at, bs))
  {
    ReadPastWrite(mem, at, bs, m.baseAddress, BOOT_REGION_DESCRIPTOR_SIZE);
    forall i: u32 | i < m.header.numAppSlots
      ensures SlotAt(Write(mem, at, bs), m.header, i).Ok?
    {
      SlotPastWrite(mem, m.header, i, at, bs);
    }
  }
}
