// The identity of a client.

module ClientIds {

  /** The address of a client; 0 is the null pointer. */
  type Client = nat

  const NULL: Client := 0
}
