/** The entities every implementation of the protocol shares. */
module Types {

  type Byte = b: int | 0 <= b < 256

  type Word16 = w: int | 0 <= w < 0x1_0000

  type Text = seq<Byte>

  datatype Option<+T> = None | Some(value: T)

  /** Two services are "the same" when device name and service name agree. */
  datatype ServiceKey = ServiceKey(device: Text, service: Text)

  datatype ServiceInfo = ServiceInfo(device: Text, service: Text, ip: Text, port: Word16, info: Text) {
    function Key(): ServiceKey {
      ServiceKey(device, service)
    }
  }

  datatype Request =
    | Register(entry: ServiceInfo)
    | Unregister(key: ServiceKey)
    | Inquiry(name: Text)
  {
    /** Registering and unregistering are the requests that concern a key. */
    predicate Touches(k: ServiceKey) {
      match this
      case Register(entry) => entry.Key() == k
      case Unregister(key) => key == k
      case Inquiry(_) => false
    }
  }

  datatype Reply = Found(entry: ServiceInfo) | Succeeded | NotFound
}
