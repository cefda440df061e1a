/** The parcelables and statuses of the allocator interface. */
module AidlTypes {
  import opened Bytes
  import opened NativeHandles
  import MetadataFormat

  type ExtendableType = MetadataFormat.ExtendableType

  datatype BufferDescriptorInfo = BufferDescriptorInfo(
    name: seq<Byte>, width: Int32, height: Int32, layerCount: Int32, format: Int32, usage: Int64,
    reservedSize: Int64, additionalOptions: seq<ExtendableType>)

  datatype AllocationResult = AllocationResult(stride: Int32, buffers: seq<AidlHandle>)

  /** `ScopedAStatus`: an exception code, and for EX_SERVICE_SPECIFIC the service's own. */
  datatype Status = Status(exception: Int32, serviceCode: Int32, message: seq<Byte>)
  {
    predicate IsOk() { exception == 0 }
  }

  const OK := Status(0, 0, [])
  const EX_SERVICE_SPECIFIC: Int32 := -8

  function ServiceError(code: Int32): (s: Status)
    ensures !s.IsOk()
  {
    Status(EX_SERVICE_SPECIFIC, code, [])
  }

  // AllocationError
  const BAD_DESCRIPTOR: Int32 := 0
  const NO_RESOURCES: Int32 := 1
  const UNSUPPORTED: Int32 := 2
}
