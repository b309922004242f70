/** Thread identifiers (threads/thread.h). */
module Tids {
  type Tid = nat
}
