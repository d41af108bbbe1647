/** The register access layer: the two Modbus requests the program issues,
    the transport's answer to a read, and the generic read primitive.
    The Modbus/TCP client itself is not modelled; a `Client` is any total map
    from a read request to the response the device sends back. */
module Modbus {

  /** A "Read Holding Registers" request (function code 0x03). */
  datatype ReadRequest = ReadHoldingRegisters(address: nat, count: nat)

  /** A "Write Multiple Registers" request (function code 0x10). */
  datatype WriteRequest = WriteMultipleRegisters(address: nat, values: seq<int>)

  /** What the transport hands back for a read: the registers, or an error
      response (exception reply or transport failure). */
  datatype Response = Registers(registers: seq<int>) | ErrorResponse

  /** The connected client, seen only through its answer to each read. */
  type Client = ReadRequest -> Response

  /** Largest quantity of registers in one read, section 6.3 of the Modbus
      Application Protocol Specification V1.1b3. */
  const MaxReadQuantity: nat := 0x7D

  /** Largest quantity of registers in one write, section 6.12 of the Modbus
      Application Protocol Specification V1.1b3. */
  const MaxWriteQuantity: nat := 0x7B

  /** Addresses and register values are 16-bit quantities on the wire. */
  const AddressSpace: nat := 0x1_0000

  /** A read request the protocol admits: between 1 and 125 registers, all
      inside the 16-bit address space. */
  predicate ValidRead(req: ReadRequest)
  {
    1 <= req.count <= MaxReadQuantity && req.address + req.count <= AddressSpace
  }

  /** A write request the protocol admits: between 1 and 123 registers, all
      inside the 16-bit address space, each value a 16-bit word. */
  predicate ValidWrite(req: WriteRequest)
  {
    && 1 <= |req.values| <= MaxWriteQuantity
    && req.address + |req.values| <= AddressSpace
    && forall i :: 0 <= i < |req.values| ==> 0 <= req.values[i] < AddressSpace
  }

  /** `read_register`: issue one read and hand back the registers, or the
      empty list when the transport reports an error. */
  function ReadRegister(client: Client, address: nat, count: nat): (regs: seq<int>)
    ensures client(ReadHoldingRegisters(address, count)).ErrorResponse? ==> regs == []
    ensures client(ReadHoldingRegisters(address, count)).Registers? ==>
              regs == client(ReadHoldingRegisters(address, count)).registers
  {
    match client(ReadHoldingRegisters(address, count))
    case Registers(registers) => registers
    case ErrorResponse => []
  }

  /** A failed read can only be told apart from a successful one by its
      length: an error gives fewer registers than any positive count asked
      for, and a read that yields `count` registers did not fail. */
  lemma ErrorIsShortRead(client: Client, address: nat, count: nat)
    requires count >= 1
    ensures client(ReadHoldingRegisters(address, count)).ErrorResponse? ==>
              |ReadRegister(client, address, count)| < count
    ensures |ReadRegister(client, address, count)| >= count ==>
              client(ReadHoldingRegisters(address, count)) == Registers(ReadRegister(client, address, count))
  {
  }
}
