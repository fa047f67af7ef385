/** The states a channel's handler can be in, in the order the program compares them. */
module ChannelState {
  datatype State = Idle | Connected | Online | Offline | Dial | Password | Link | Login

  /** `get_state() >= chs_online`: every state but the first two. */
  predicate IsOnline(s: State) {
    s != Idle && s != Connected
  }
}
