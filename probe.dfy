/** The debug-probe handle (`pynrfjprog.MultiAPI`) as the programmer uses it: every call
    it makes on a handle is appended to an operation log. The hardware behind the probe
    is a model input (`Host`): the serial numbers attached and what each target's
    memory reads back as. */
module Probe {

  type Byte = x: int | 0 <= x < 0x100

  /** What a target returns when its memory is read at an address. */
  type Memory = nat -> Byte

  /** The hardware seen from the host: the probes attached, and the memory behind each. */
  datatype Host = Host(attached: seq<int>, memory: int -> Memory)

  /** One call on a probe handle. */
  datatype Op =
    | Open(family: string)
    | EnumEmuSnr
    | ConnectToEmuWithSnr(snr: int)
    | Recover
    | EraseUicr
    | ErasePage(addr: nat)
    | Write(addr: nat, data: seq<Byte>)
    | Read(addr: nat, length: nat)
    | SysReset
    | DisconnectFromEmu
    | Close

  /** The `length` bytes a target with memory `mem` returns for a read at `addr`. */
  function ReadBack(mem: Memory, addr: nat, length: nat): (r: seq<Byte>)
    ensures |r| == length
  {
    seq(length, i requires 0 <= i < length => mem(addr + i))
  }

  /** A `MultiAPI` handle: created for a device family, then driven call by call. */
  class MultiApi {
    const family: string
    const host: Host
    var connected: bool
    var snr: int
    var ops: seq<Op>

    constructor (family: string, host: Host)
      ensures this.family == family && this.host == host
      ensures !connected && ops == []
    {
      this.family := family;
      this.host := host;
      connected := false;
      snr := 0;
      ops := [];
    }

    method Open()
      modifies this`ops
      ensures ops == old(ops) + [Op.Open(family)]
    {
      ops := ops + [Op.Open(family)];
    }

    method EnumEmuSnr() returns (snrs: seq<int>)
      modifies this`ops
      ensures ops == old(ops) + [Op.EnumEmuSnr]
      ensures snrs == host.attached
    {
      ops := ops + [Op.EnumEmuSnr];
      snrs := host.attached;
    }

    method ConnectToEmuWithSnr(device: int)
      modifies this`ops, this`connected, this`snr
      ensures ops == old(ops) + [Op.ConnectToEmuWithSnr(device)]
      ensures connected && snr == device
    {
      ops := ops + [Op.ConnectToEmuWithSnr(device)];
      connected, snr := true, device;
    }

    method Recover()
      modifies this`ops
      ensures ops == old(ops) + [Op.Recover]
    {
      ops := ops + [Op.Recover];
    }

    method EraseUicr()
      modifies this`ops
      ensures ops == old(ops) + [Op.EraseUicr]
    {
      ops := ops + [Op.EraseUicr];
    }

    method ErasePage(addr: nat)
      modifies this`ops
      ensures ops == old(ops) + [Op.ErasePage(addr)]
    {
      ops := ops + [Op.ErasePage(addr)];
    }

    method Write(addr: nat, data: seq<Byte>)
      modifies this`ops
      ensures ops == old(ops) + [Op.Write(addr, data)]
    {
      ops := ops + [Op.Write(addr, data)];
    }

    /** Reading needs a connected target; it returns that target's memory. */
    method Read(addr: nat, length: nat) returns (data: seq<Byte>)
      requires connected
      modifies this`ops
      ensures ops == old(ops) + [Op.Read(addr, length)]
      ensures data == ReadBack(host.memory(snr), addr, length)
    {
      ops := ops + [Op.Read(addr, length)];
      data := ReadBack(host.memory(snr), addr, length);
    }

    method SysReset()
      modifies this`ops
      ensures ops == old(ops) + [Op.SysReset]
    {
      ops := ops + [Op.SysReset];
    }

    method DisconnectFromEmu()
      modifies this`ops, this`connected
      ensures ops == old(ops) + [Op.DisconnectFromEmu] && !connected
    {
      ops := ops + [Op.DisconnectFromEmu];
      connected := false;
    }

    method Close()
      modifies this`ops
      ensures ops == old(ops) + [Op.Close]
    {
      ops := ops + [Op.Close];
    }
  }
}
