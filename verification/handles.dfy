/** Opaque kernel handles that the frame table stores and compares. */
module Handles {

  /** A kernel address of a physical page frame (`void *kpage`). Only compared and used as a key. */
  type Addr = nat

  /** A user virtual page (`void *upage`). */
  type Page = nat

  /** A thread identity. The kernel compares `struct thread *` values for equality only. */
  type ThreadId = nat
}
