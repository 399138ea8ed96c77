/**
 * The bootable region descriptor header: eight 32-bit words, packed in
 * declaration order, the last of which is a CRC over the seven before it.
 */
module RegionHeader {
  import opened Crc32Cksum
  import opened ByteLayout
  import opened DescriptorVersion
  import opened ParseErrors
  import AppImage

  /** Magic number that identifies a region header. */
  const BOOT_REGION_DESCRIPTOR_SIGNATURE: u32 := 0x2222_2222

  /** Size of the header's byte image. */
  const BOOT_REGION_DESCRIPTOR_SIZE: nat := 32

  datatype BootableRegionDescriptorHeader = BootableRegionDescriptorHeader(
    signature: u32,
    descriptorVersion: u32,
    descriptorHeaderSizeBytes: u32,
    appDescriptorSizeBytes: u32,
    appDescriptorBaseAddress: u32,
    numAppSlots: u32,
    activeAppSlot: u32,
    headerCrc: u32)
  {
    /** The words the CRC covers: every field but the CRC, in declaration order. */
    function CoveredWords(): (ws: seq<u32>)
      ensures |ws| == 7
    {
      [signature, descriptorVersion, descriptorHeaderSizeBytes, appDescriptorSizeBytes,
       appDescriptorBaseAddress, numAppSlots, activeAppSlot]
    }

    /** The packed byte image: the covered words, then the CRC in the last four bytes. */
    function AsBytes(): (bs: seq<u8>)
      ensures |bs| == BOOT_REGION_DESCRIPTOR_SIZE
      ensures bs[..BOOT_REGION_DESCRIPTOR_SIZE - 4] == Encode(CoveredWords())
      ensures bs[BOOT_REGION_DESCRIPTOR_SIZE - 4..] == LeBytes(headerCrc)
    {
      EncodeAppend(CoveredWords(), [headerCrc]);
      Encode(CoveredWords() + [headerCrc])
    }

    /** The CRC of the current contents: over every byte of the image except the CRC field. */
    function Crc(): (crc: u32)
    {
      Crc32(AsBytes()[..BOOT_REGION_DESCRIPTOR_SIZE - 4])
    }

    /** The stored CRC matches the contents. */
    predicate IsCrcValid()
    {
      headerCrc == Crc()
    }

    /** Computes Crc() as the firmware does, copying the covered bytes out first. */
    method ComputeCrc() returns (crc: u32)
      ensures crc == Crc32(AsBytes()[..BOOT_REGION_DESCRIPTOR_SIZE - 4])
    {
      crc := ChecksumWithoutTrailingCrc(AsBytes());
    }

    /** Every check the parser makes, in the order it makes them. */
    predicate IsWellFormed()
    {
      && signature == BOOT_REGION_DESCRIPTOR_SIGNATURE
      && IsCrcValid()
      && numAppSlots >= 1
      && activeAppSlot < numAppSlots
    }

    /** The header whose byte image is `bs`. */
    static function FromBytes(bs: seq<u8>): (h: BootableRegionDescriptorHeader)
      requires |bs| == BOOT_REGION_DESCRIPTOR_SIZE
      ensures h.AsBytes() == bs
    {
      var ws := Decode(bs);
      var h := BootableRegionDescriptorHeader(ws[0], ws[1], ws[2], ws[3], ws[4], ws[5], ws[6], ws[7]);
      assert h.CoveredWords() + [h.headerCrc] == ws;
      EncodeDecode(bs);
      h
    }

    /**
     * Reads the header at `address` and validates it, reporting the first
     * check that fails: signature, then CRC, then slot count, then active slot.
     */
    static function FromAddress(mem: Memory, address: nat): (r: Result<BootableRegionDescriptorHeader>)
      ensures var raw := Read(mem, address, BOOT_REGION_DESCRIPTOR_SIZE);
        && (r.Ok? <==> FromBytes(raw).IsWellFormed())
        && (r.Ok? ==> r.value.AsBytes() == raw)
        && (raw[..4] != LeBytes(BOOT_REGION_DESCRIPTOR_SIGNATURE) ==> r == Err(InvalidSignature))
        && (r.Err? && r.error.InvalidHeaderCrc? ==>
              && r.error.found != r.error.expected
              && LeBytes(r.error.found) == raw[BOOT_REGION_DESCRIPTOR_SIZE - 4..]
              && r.error.expected == Crc32(raw[..BOOT_REGION_DESCRIPTOR_SIZE - 4]))
    {
      var unvalidated := FromBytes(Read(mem, address, BOOT_REGION_DESCRIPTOR_SIZE));
      assert unvalidated.AsBytes()[..4] == LeBytes(unvalidated.signature) by {
        EncodeAt(unvalidated.CoveredWords(), 0);
      }
      if unvalidated.signature != BOOT_REGION_DESCRIPTOR_SIGNATURE then
        Err(InvalidSignature)
      else if !unvalidated.IsCrcValid() then
        Err(InvalidHeaderCrc(unvalidated.headerCrc, unvalidated.Crc()))
      else if unvalidated.numAppSlots < 1 then
        Err(InvalidSlotCount)
      else if unvalidated.activeAppSlot >= unvalidated.numAppSlots then
        Err(InvalidAppSlot)
      else
        Ok(unvalidated)
    }

    /**
     * Builds a header for `appSlotCount` slots at `appDescriptorAddress` with
     * `activeAppSlot` active, and seals it with its CRC.
     */
    static method New(appSlotCount: u32, activeAppSlot: u32, appDescriptorAddress: u32)
      returns (h: BootableRegionDescriptorHeader)
      ensures h.signature == BOOT_REGION_DESCRIPTOR_SIGNATURE
      ensures h.descriptorVersion == DESCRIPTOR_VERSION
      ensures h.descriptorHeaderSizeBytes as nat == BOOT_REGION_DESCRIPTOR_SIZE
      ensures h.appDescriptorSizeBytes as nat == AppImage.APP_IMAGE_DESCRIPTOR_SIZE
      ensures h.appDescriptorBaseAddress == appDescriptorAddress
      ensures h.numAppSlots == appSlotCount && h.activeAppSlot == activeAppSlot
      ensures h.IsCrcValid()
    {
      h := BootableRegionDescriptorHeader(
        BOOT_REGION_DESCRIPTOR_SIGNATURE, DESCRIPTOR_VERSION,
        BOOT_REGION_DESCRIPTOR_SIZE as u32, AppImage.APP_IMAGE_DESCRIPTOR_SIZE as u32,
        appDescriptorAddress, appSlotCount, activeAppSlot, 0);
      var crc := h.ComputeCrc();
      CrcIgnoresCrcField(h, crc);
      h := h.(headerCrc := crc);
    }
  }

  /** Decoding the image of a header gives that header back. */
  lemma FromBytesAsBytes(h: BootableRegionDescriptorHeader)
    ensures BootableRegionDescriptorHeader.FromBytes(h.AsBytes()) == h
  {
    var ws := h.CoveredWords() + [h.headerCrc];
    DecodeEncode(ws);
  }

  /** The CRC does not depend on the CRC field, so storing Crc() there makes the header CRC-valid. */
  lemma CrcIgnoresCrcField(h: BootableRegionDescriptorHeader, c: u32)
    ensures h.(headerCrc := c).Crc() == h.Crc()
    ensures h.(headerCrc := h.Crc()).IsCrcValid()
    ensures c != h.Crc() ==> !h.(headerCrc := c).IsCrcValid()
  {
  }

  /**
   * The parser checks in a fixed order and reports the first failure: each
   * error is returned exactly when every earlier check passed and its own failed.
   */
  lemma FirstFailureWins(mem: Memory, address: nat)
    ensures var h := BootableRegionDescriptorHeader.FromBytes(Read(mem, address, BOOT_REGION_DESCRIPTOR_SIZE));
      var r := BootableRegionDescriptorHeader.FromAddress(mem, address);
      && (r == Err(InvalidSignature) <==> h.signature != BOOT_REGION_DESCRIPTOR_SIGNATURE)
      && (r.Err? && r.error.InvalidHeaderCrc? <==>
            h.signature == BOOT_REGION_DESCRIPTOR_SIGNATURE && !h.IsCrcValid())
      && (r == Err(InvalidSlotCount) <==>
            h.signature == BOOT_REGION_DESCRIPTOR_SIGNATURE && h.IsCrcValid() && h.numAppSlots == 0)
      && (r == Err(InvalidAppSlot) <==>
            h.signature == BOOT_REGION_DESCRIPTOR_SIGNATURE && h.IsCrcValid()
            && h.numAppSlots >= 1 && h.activeAppSlot >= h.numAppSlots)
      && (r.Ok? <==> r == Ok(h))
  {
  }

  /**
   * A CRC-sealed header carrying the signature, once written to memory, parses
   * back to itself, unless it declares no slots or an active slot out of range.
   */
  lemma StoredHeaderParses(h: BootableRegionDescriptorHeader, mem: Memory, p: nat)
    requires h.signature == BOOT_REGION_DESCRIPTOR_SIGNATURE && h.IsCrcValid()
    ensures BootableRegionDescriptorHeader.FromAddress(Write(mem, p, h.AsBytes()), p)
      == if h.numAppSlots == 0 then Err(InvalidSlotCount)
         else if h.activeAppSlot >= h.numAppSlots then Err(InvalidAppSlot)
         else Ok(h)
  {
    FromBytesAsBytes(h);
  }

  /**
   * What the provisioning side and the firmware do together: build a header
   * with `New`, store its bytes at `p`, and parse it back from there.
   */
  method ProvisionAndLoad(mem: Memory, p: nat, appSlotCount: u32, activeAppSlot: u32, appDescriptorAddress: u32)
    returns (built: BootableRegionDescriptorHeader, loaded: Result<BootableRegionDescriptorHeader>)
    ensures built.signature == BOOT_REGION_DESCRIPTOR_SIGNATURE && built.IsCrcValid()
    ensures built.numAppSlots == appSlotCount && built.activeAppSlot == activeAppSlot
    ensures built.appDescriptorBaseAddress == appDescriptorAddress
    ensures loaded == BootableRegionDescriptorHeader.FromAddress(Write(mem, p, built.AsBytes()), p)
    ensures 1 <= appSlotCount && activeAppSlot < appSlotCount ==> loaded == Ok(built)
    ensures appSlotCount == 0 ==> loaded == Err(InvalidSlotCount)
    ensures 1 <= appSlotCount <= activeAppSlot ==> loaded == Err(InvalidAppSlot)
  {
    built := BootableRegionDescriptorHeader.New(appSlotCount, activeAppSlot, appDescriptorAddress);
    loaded := BootableRegionDescriptorHeader.FromAddress(Write(mem, p, built.AsBytes()), p);
    StoredHeaderParses(built, mem, p);
  }

  /**
   * What a valid CRC means on the wire: the last four bytes of the image hold,
   * little-endian, the CRC of the 28 bytes before them.
   */
  lemma CrcValidOnImage(h: BootableRegionDescriptorHeader)
    ensures h.IsCrcValid() <==>
      h.AsBytes()[BOOT_REGION_DESCRIPTOR_SIZE - 4..] == LeBytes(Crc32(h.AsBytes()[..BOOT_REGION_DESCRIPTOR_SIZE - 4]))
  {
    LeWordOfLeBytes(h.headerCrc);
    LeWordOfLeBytes(h.Crc());
  }
}
