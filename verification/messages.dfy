/**
 The device redirection messages the observer distinguishes, as produced by
 the channel's parser: I/O requests of four kinds, I/O responses, the device
 list announcement, and everything else.
 */
module Messages {
  import opened Bytes

  /** Access-mask bits of a create request. */
  const GENERIC_READ: bv32 := 0x8000_0000
  const FILE_READ_DATA: bv32 := 0x0000_0001

  /** Create-option bit: the target must not be a directory. */
  const FILE_NON_DIRECTORY_FILE: bv32 := 0x0000_0040

  /** The severity class held in the top two bits of an NTSTATUS value. */
  const STATUS_SEVERITY_ERROR: bv32 := 3

  /** An I/O request, carrying the completion id its response will echo. */
  datatype IORequest =
    | CreateRequest(completionId: nat, desiredAccess: bv32, createOptions: bv32, path: seq<byte>)
    | ReadRequest(completionId: nat, fileId: nat, offset: nat, length: nat)
    | CloseRequest(completionId: nat, fileId: nat)
    | OtherRequest(completionId: nat, majorFunction: nat)

  /** An I/O response. `fileId` is what the parser reads from it when it is
      reinterpreted as a create response, `readData` when it is reinterpreted
      as a read response. */
  datatype IOResponse = IOResponse(completionId: nat, ioStatus: bv32, fileId: nat, readData: seq<byte>)

  /** One announced device. */
  datatype Device = Device(deviceType: nat, deviceId: nat, deviceData: seq<byte>)

  datatype Message =
    | Request(request: IORequest)
    | Response(response: IOResponse)
    | DeviceListAnnounce(devices: seq<Device>)
    | Unparsed(packetId: nat)

  /** The message handed to the peer for sending: the one received, or the
      response as the parser reinterpreted it. */
  datatype Outgoing =
    | AsReceived(message: Message)
    | ReadResponsePdu(readResponse: IOResponse)
    | CreateResponsePdu(createResponse: IOResponse)

  /** The create request opens a regular file for reading: one of the two
      read-access bits is requested and the non-directory option is set.
      Only such files are tracked. */
  predicate IsReadOpen(req: IORequest)
    requires req.CreateRequest?
  {
    && req.desiredAccess & (GENERIC_READ | FILE_READ_DATA) != 0
    && req.createOptions & FILE_NON_DIRECTORY_FILE != 0
  }

  /** The tracking test in terms of individual bits: bit 31 or bit 0 of the
      access mask, and bit 6 of the create options. */
  lemma IsReadOpenBits(req: IORequest)
    requires req.CreateRequest?
    ensures IsReadOpen(req) <==>
      && (req.desiredAccess >= 0x8000_0000 || req.desiredAccess % 2 == 1)
      && (req.createOptions >> 6) % 2 == 1
  {
  }

  /** The response status is of error severity. */
  predicate IsErrorStatus(ioStatus: bv32)
  {
    ioStatus >> 30 == STATUS_SEVERITY_ERROR
  }

  /** Error severity means the status lies in the top quarter of the 32-bit range. */
  lemma IsErrorStatusRange(ioStatus: bv32)
    ensures IsErrorStatus(ioStatus) <==> ioStatus >= 0xC000_0000
  {
  }
}
