/** Table values and protocol messages (nt_Value.h, Message.h). */
module Messages {
  import opened Basics
  import opened Serials

  /** A double carried as its 64-bit pattern. */
  type Bits64 = x: int | 0 <= x < 0x1_0000_0000_0000_0000

  datatype Type = BooleanT | DoubleT | StringT | RawT | BooleanArrayT | DoubleArrayT | StringArrayT | RpcT

  datatype Value =
    | Boolean(b: bool)
    | Double(bits: Bits64)
    | String(s: Bytes)
    | Raw(s: Bytes)
    | Rpc(s: Bytes)
    | BooleanArray(bools: seq<bool>)
    | DoubleArray(doubles: seq<Bits64>)
    | StringArray(strings: seq<Bytes>)
  {
    function Type(): Type {
      match this
      case Boolean(_) => BooleanT
      case Double(_) => DoubleT
      case String(_) => StringT
      case Raw(_) => RawT
      case Rpc(_) => RpcT
      case BooleanArray(_) => BooleanArrayT
      case DoubleArray(_) => DoubleArrayT
      case StringArray(_) => StringArrayT
    }
  }

  /** The id of an entry to which the server has not yet given one. */
  const UNASSIGNED: nat := 0xffff

  datatype Message =
    | KeepAlive
    | ClientHello(protoRev: nat, selfId: Bytes)
    | ProtoUnsup(protoRev: nat)
    | ServerHelloDone
    | ServerHello(helloFlags: nat, selfId: Bytes)
    | ClientHelloDone
    | EntryAssign(name: Bytes, id: nat, seqNum: Serial, value: Value, flags: nat)
    | EntryUpdate(id: nat, seqNum: Serial, value: Value)
    | FlagsUpdate(id: nat, flags: nat)
    | EntryDelete(id: nat)
    | ClearEntries
    | ExecuteRpc(id: nat, uid: nat, params: Bytes)
    | RpcResponse(id: nat, uid: nat, params: Bytes)
}
