/** Endpoints, connections and disconnect reasons shared by the policy, the transfer and the session. */
module Net {

  /** An IP address, abstracted to an integer with the order peer_address_compare uses. */
  type Address = int

  /** A TCP endpoint: address and port. */
  datatype Endpoint = Endpoint(address: Address, port: int)

  /** What a default-constructed tcp::endpoint holds; asio returns it when reading an endpoint fails. */
  const DefaultEndpoint: Endpoint := Endpoint(0, 0)

  /** The outcome of asking a socket for its local or remote endpoint. */
  datatype EndpointRead = Read(endpoint: Endpoint) | ReadFailed
  {
    /** The endpoint the call returns: the read one, or the default one on error. */
    function Value(): Endpoint
    {
      if Read? then endpoint else DefaultEndpoint
    }
  }

  /**
   * A peer connection as the core sees it. `id` tells apart connection objects that
   * otherwise look alike; `remote` is the endpoint the connection was created for
   * (peer_connection::remote()); `socketRemote`/`socketLocal` are what its socket reports,
   * which may fail; `connecting` is is_connecting(), `local` is is_local() (an outgoing
   * connection), `uploadOnly` is upload_only().
   */
  datatype Conn = Conn(
    id: nat,
    remote: Endpoint,
    socketRemote: EndpointRead,
    socketLocal: EndpointRead,
    connecting: bool,
    local: bool,
    uploadOnly: bool)

  /** The error a connection is disconnected with. */
  datatype Reason =
    | NoError                 // errors::no_error
    | SocketError             // the error code an endpoint read left behind (ec1 / ec2)
    | SelfConnection          // errors::self_connection
    | DuplicatePeerId         // errors::duplicate_peer_id
    | TooManyConnections      // errors::too_many_connections
    | BannedByIpFilter        // errors::banned_by_ip_filter
    | TransferFinished        // errors::transfer_finished
}
