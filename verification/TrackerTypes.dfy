/** The records the tracker passes around: peers, hash entries and the constants of tracker.h. */
module TrackerTypes {

  type Hash = h: int | 0 <= h < 0x1_0000_0000_0000_0000
  type Ip = a: int | 0 <= a < 0x1_0000_0000

  const HASH_TABLE_ENTRIES: nat := 1024
  const PREDICTIONS: nat := 10
  const PEERS_PER_PREDICTION: nat := 3

  datatype Option<+T> = None | Some(value: T)

  datatype PeerState = Downloading | Ready

  datatype Peer = Peer(ip: Ip, state: PeerState)

  // A slot of the request table.  A slot is free when its hash is 0.
  datatype Entry = Entry(hash: Hash, peers: seq<Peer>)

  const FREE: Entry := Entry(0, [])

  // An entry that holds a request: it has a hash, and at least one peer
  // (an entry losing its last peer is freed).
  predicate IsLive(e: Entry) {
    e.hash != 0 && e.peers != []
  }

  // One record of a message: a hash and the peers named with it.
  datatype Info = Info(hash: Hash, peers: seq<Peer>)
}
