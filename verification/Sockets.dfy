/** The radio sockets, one per SIM. */
module Sockets {
  const SIM_COUNT: nat := 2

  predicate ValidSocket(socket: int) { 0 <= socket < SIM_COUNT }
}
