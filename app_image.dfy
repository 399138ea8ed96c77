/**
 * The app image descriptor: eleven 32-bit words, packed in declaration
 * order, the last of which is a CRC over the ten before it. One descriptor
 * per slot describes where an image is stored and how it is to be run.
 */
module AppImage {
  import opened Crc32Cksum
  import opened ByteLayout
  import opened DescriptorVersion
  import opened ParseErrors

  /** Size of a descriptor's byte image, and the stride of the slot array. */
  const APP_IMAGE_DESCRIPTOR_SIZE: nat := 44

  /** No flags set. */
  const APP_IMAGE_FLAG_NONE: u32 := 0x0000_0000

  /** Copy the image from stored_address to execution_address before running it. */
  const APP_IMAGE_FLAG_COPY_TO_EXECUTION_ADDRESS: u32 := 0x0000_0001

  /** Skip the separate CRC check over the image contents. */
  const APP_IMAGE_FLAG_SKIP_IMAGE_CRC_CHECK: u32 := 0x0000_0002

  datatype AppImageDescriptor = AppImageDescriptor(
    descriptorVersion: u32,
    appSlotNumber: u32,
    appVersion: u32,
    securityVersion: u32,
    flags: u32,
    storedAddress: u32,
    imageSizeBytes: u32,
    storedCrcAddress: u32,
    executionCopySizeBytes: u32,
    executionAddress: u32,
    descriptorCrc: u32)
  {
    /** The words the CRC covers: every field but the CRC, in declaration order. */
    function CoveredWords(): (ws: seq<u32>)
      ensures |ws| == 10
    {
      [descriptorVersion, appSlotNumber, appVersion, securityVersion, flags,
       storedAddress, imageSizeBytes, storedCrcAddress, executionCopySizeBytes, executionAddress]
    }

    /** The packed byte image: the covered words, then the CRC in the last four bytes. */
    function AsBytes(): (bs: seq<u8>)
      ensures |bs| == APP_IMAGE_DESCRIPTOR_SIZE
      ensures bs[..APP_IMAGE_DESCRIPTOR_SIZE - 4] == Encode(CoveredWords())
      ensures bs[APP_IMAGE_DESCRIPTOR_SIZE - 4..] == LeBytes(descriptorCrc)
    {
      EncodeAppend(CoveredWords(), [descriptorCrc]);
      Encode(CoveredWords() + [descriptorCrc])
    }

    /** The CRC of the current contents: over every byte of the image except the CRC field. */
    function Crc(): (crc: u32)
    {
      Crc32(AsBytes()[..APP_IMAGE_DESCRIPTOR_SIZE - 4])
    }

    /** The stored CRC matches the contents. */
    predicate IsCrcValid()
    {
      descriptorCrc == Crc()
    }

    /** Computes Crc() as the firmware does, copying the covered bytes out first. */
    method ComputeCrc() returns (crc: u32)
      ensures crc == Crc32(AsBytes()[..APP_IMAGE_DESCRIPTOR_SIZE - 4])
    {
      crc := ChecksumWithoutTrailingCrc(AsBytes());
    }

    /** The descriptor whose byte image is `bs`. */
    static function FromBytes(bs: seq<u8>): (d: AppImageDescriptor)
      requires |bs| == APP_IMAGE_DESCRIPTOR_SIZE
      ensures d.AsBytes() == bs
    {
      var ws := Decode(bs);
      var d := AppImageDescriptor(ws[0], ws[1], ws[2], ws[3], ws[4], ws[5], ws[6], ws[7], ws[8], ws[9], ws[10]);
      assert d.CoveredWords() + [d.descriptorCrc] == ws;
      EncodeDecode(bs);
      d
    }

    /**
     * Reads the descriptor at `address` and accepts it exactly when its
     * stored CRC matches its contents.
     */
    static function FromAddress(mem: Memory, address: nat): (r: Result<AppImageDescriptor>)
      ensures var raw := Read(mem, address, APP_IMAGE_DESCRIPTOR_SIZE);
        && (r.Ok? <==> FromBytes(raw).IsCrcValid())
        && (r.Ok? ==> r.value.AsBytes() == raw)
        && (r.Err? ==>
              && r.error.InvalidAppCrc?
              && r.error.address == address
              && r.error.found != r.error.expected
              && LeBytes(r.error.found) == raw[APP_IMAGE_DESCRIPTOR_SIZE - 4..]
              && r.error.expected == Crc32(raw[..APP_IMAGE_DESCRIPTOR_SIZE - 4]))
    {
      var unvalidated := FromBytes(Read(mem, address, APP_IMAGE_DESCRIPTOR_SIZE));
      if !unvalidated.IsCrcValid() then
        Err(InvalidAppCrc(address, unvalidated.descriptorCrc, unvalidated.Crc()))
      else
        Ok(unvalidated)
    }

    /**
     * Reads the descriptor of slot `appSlot` of the array that starts at
     * `descriptorsStart`. There is no bounds check: any slot index is read.
     */
    static function FromRegion(mem: Memory, descriptorsStart: nat, appSlot: u32): (r: Result<AppImageDescriptor>)
      ensures var address := descriptorsStart + appSlot as nat * APP_IMAGE_DESCRIPTOR_SIZE;
        var raw := Read(mem, address, APP_IMAGE_DESCRIPTOR_SIZE);
        && (r.Ok? <==> FromBytes(raw).IsCrcValid())
        && (r.Ok? ==> r.value.AsBytes() == raw)
        && (r.Err? ==>
              && r.error.InvalidAppCrc?
              && r.error.address == address
              && r.error.found != r.error.expected
              && LeBytes(r.error.found) == raw[APP_IMAGE_DESCRIPTOR_SIZE - 4..]
              && r.error.expected == Crc32(raw[..APP_IMAGE_DESCRIPTOR_SIZE - 4]))
    {
      FromAddress(mem, descriptorsStart + appSlot as nat * APP_IMAGE_DESCRIPTOR_SIZE)
    }

    /**
     * Builds the descriptor of an image that runs where it is stored
     * (execute in place): nothing is copied, and execution starts at the
     * stored address. Sealed with its CRC.
     */
    static method NewExecuteInPlaceImage(
      slot: u32, appVersion: u32, securityVersion: u32, flags: u32,
      storedAddress: u32, imageSizeBytes: u32, storedCrcAddress: u32)
      returns (d: AppImageDescriptor)
      ensures d.descriptorVersion == DESCRIPTOR_VERSION
      ensures d.appSlotNumber == slot && d.appVersion == appVersion && d.securityVersion == securityVersion
      ensures d.flags == flags
      ensures d.storedAddress == storedAddress && d.imageSizeBytes == imageSizeBytes
      ensures d.storedCrcAddress == storedCrcAddress
      ensures d.executionAddress == storedAddress && d.executionCopySizeBytes == 0
      ensures d.IsCrcValid()
    {
      d := AppImageDescriptor(
        DESCRIPTOR_VERSION, slot, appVersion, securityVersion, flags,
        storedAddress, imageSizeBytes, storedCrcAddress, 0, storedAddress, 0);
      var crc := d.ComputeCrc();
      CrcIgnoresCrcField(d, crc);
      d := d.(descriptorCrc := crc);
    }

    /**
     * Builds the descriptor of an image stored in flash at `flashAddress`
     * that is copied to `ramAddress` and run there. The copy flag is forced
     * on; every other flag bit is kept as given. Sealed with its CRC.
     */
    static method NewRamImage(
      slot: u32, appVersion: u32, securityVersion: u32, flags: u32,
      flashAddress: u32, imageSizeBytes: u32, ramAddress: u32, storedCrcAddress: u32)
      returns (d: AppImageDescriptor)
      ensures d.descriptorVersion == DESCRIPTOR_VERSION
      ensures d.appSlotNumber == slot && d.appVersion == appVersion && d.securityVersion == securityVersion
      ensures d.flags as bv32 & APP_IMAGE_FLAG_COPY_TO_EXECUTION_ADDRESS as bv32 != 0
      ensures d.flags as bv32 & !(APP_IMAGE_FLAG_COPY_TO_EXECUTION_ADDRESS as bv32)
           == flags as bv32 & !(APP_IMAGE_FLAG_COPY_TO_EXECUTION_ADDRESS as bv32)
      ensures d.storedAddress == flashAddress && d.imageSizeBytes == imageSizeBytes
      ensures d.storedCrcAddress == storedCrcAddress
      ensures d.executionAddress == ramAddress && d.executionCopySizeBytes == imageSizeBytes
      ensures d.IsCrcValid()
    {
      d := AppImageDescriptor(
        DESCRIPTOR_VERSION, slot, appVersion, securityVersion,
        BitOr(flags, APP_IMAGE_FLAG_COPY_TO_EXECUTION_ADDRESS),
        flashAddress, imageSizeBytes, storedCrcAddress, imageSizeBytes, ramAddress, 0);
      var crc := d.ComputeCrc();
      CrcIgnoresCrcField(d, crc);
      d := d.(descriptorCrc := crc);
    }
  }

  /** Decoding the image of a descriptor gives that descriptor back. */
  lemma FromBytesAsBytes(d: AppImageDescriptor)
    ensures AppImageDescriptor.FromBytes(d.AsBytes()) == d
  {
    DecodeEncode(d.CoveredWords() + [d.descriptorCrc]);
  }

  /** The CRC does not depend on the CRC field, so storing Crc() there makes the descriptor CRC-valid. */
  lemma CrcIgnoresCrcField(d: AppImageDescriptor, c: u32)
    ensures d.(descriptorCrc := c).Crc() == d.Crc()
    ensures d.(descriptorCrc := d.Crc()).IsCrcValid()
    ensures c != d.Crc() ==> !d.(descriptorCrc := c).IsCrcValid()
  {
  }

  /**
   * The packed layout follows the declaration order: execution_copy_size_bytes
   * occupies bytes 32 to 36 and execution_address bytes 36 to 40, the CRC the
   * last four.
   */
  lemma ExecutionFieldOffsets(d: AppImageDescriptor)
    ensures d.AsBytes()[32..36] == LeBytes(d.executionCopySizeBytes)
    ensures d.AsBytes()[36..40] == LeBytes(d.executionAddress)
    ensures d.AsBytes()[40..44] == LeBytes(d.descriptorCrc)
  {
    var bs := d.AsBytes();
    EncodeAt(d.CoveredWords(), 8);
    EncodeAt(d.CoveredWords(), 9);
    assert bs[32..36] == bs[..40][32..36];
    assert bs[36..40] == bs[..40][36..40];
  }

  /** A CRC-sealed descriptor, once written to memory, parses back to itself. */
  lemma StoredDescriptorParses(d: AppImageDescriptor, mem: Memory, p: nat)
    requires d.IsCrcValid()
    ensures AppImageDescriptor.FromAddress(Write(mem, p, d.AsBytes()), p) == Ok(d)
  {
    FromBytesAsBytes(d);
  }

  /**
   * What a valid CRC means on the wire: the last four bytes of the image hold,
   * little-endian, the CRC of the forty bytes before them.
   */
  lemma CrcValidOnImage(d: AppImageDescriptor)
    ensures d.IsCrcValid() <==>
      d.AsBytes()[APP_IMAGE_DESCRIPTOR_SIZE - 4..] == LeBytes(Crc32(d.AsBytes()[..APP_IMAGE_DESCRIPTOR_SIZE - 4]))
  {
    LeWordOfLeBytes(d.descriptorCrc);
    LeWordOfLeBytes(d.Crc());
  }
}
