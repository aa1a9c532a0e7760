/** What the models of the dynamic buffer manager share. */
module BufferTypes {

  /** PORT_ADMIN_DOWN, PORT_INITIALIZING and PORT_READY. */
  datatype PortState = AdminDown | Initializing | Ready

  /** task_process_status. */
  datatype Status = Success | NeedRetry | Failed

  datatype Headroom = Headroom(xon: string, xoff: string, xonOffset: string, size: string)

  /** What the headroom of a dynamic profile is calculated from. */
  datatype Params = Params(speed: string, cable: string, mtu: string, gearbox: string, lanes: int)

  const NO_HEADROOM := Headroom("", "", "", "")
  const NO_PARAMS := Params("", "", "", "", 0)
  const DEFAULT_MTU := "9100"

  predicate IsNonZero(value: string) {
    value != "" && value != "0"
  }
}
