/** The enumerations and records the driver's header declares. */
module Types {
  import opened Results

  /** `wifiMode`: how the module takes part in the wireless network. */
  datatype WifiMode = Station | AccessPoint | Both

  /** The integer a mode carries, which is the number sent with AT+CWMODE. */
  function ModeCode(m: WifiMode): (code: int)
    ensures 1 <= code <= 3
  {
    match m
    case Station => 1
    case AccessPoint => 2
    case Both => 3
  }

  /** The mode a code stands for; the inverse of ModeCode. */
  function ModeOfCode(code: int): (m: Option<WifiMode>)
    ensures m.Some? <==> 1 <= code <= 3
    ensures m.Some? ==> ModeCode(m.value) == code
  {
    if code == 1 then Some(Station)
    else if code == 2 then Some(AccessPoint)
    else if code == 3 then Some(Both)
    else None
  }

  /** `wifiEnc`: the encryption an access point offers. */
  datatype WifiEnc = Open | Wpa | Wpa2 | WpaWpa2

  /** The integer an encryption carries, which is the number sent with AT+CWSAP_CUR. */
  function EncCode(e: WifiEnc): (code: int)
    ensures 0 <= code <= 3
  {
    match e
    case Open => 0
    case Wpa => 1
    case Wpa2 => 2
    case WpaWpa2 => 3
  }

  /** `connection`: one peer of the access point; it owns both strings (None is a null pointer). */
  datatype Connection = Connection(ip: Option<seq<char>>, mac: Option<seq<char>>)

  /** `connection()`: both pointers start null. */
  function NewConnection(): (c: Connection)
    ensures c.ip == None && c.mac == None
  {
    Connection(None, None)
  }

  /**
   * `client`: one entry of the caller's channel table. `msgBuffer` owns the
   * whole frame stashed for `getPendingMsg`; None is a pointer that holds no
   * live frame, because it was never assigned or because the frame it
   * points at has been freed.
   */
  datatype Client = Client(channel: int, connected: bool, hasMessage: bool, msgBuffer: Option<seq<char>>)

  /**
   * `client()`: the entry is neither connected nor holding a message. The
   * constructor leaves `channel` and `msgBuffer` uninitialised; their
   * indeterminate contents are the arguments here.
   */
  function NewClient(channel: int, msgBuffer: Option<seq<char>>): (c: Client)
    ensures !c.connected && !c.hasMessage
    ensures c.channel == channel && c.msgBuffer == msgBuffer
  {
    Client(channel, false, false, msgBuffer)
  }

  /** The caller's `char *` that `sendCommand` is given the address of. */
  datatype Output = Unassigned | Assigned(frame: seq<char>)
}
