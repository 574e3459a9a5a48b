/** The bunker: the shielding flag and the buffer that holds one ephemeral private key. */
module BunkerStore {
  import opened Bytes

  const EPH_SIZE: nat := 64
  const KEY_LEN: nat := 32

  type Key = k: seq<byte> | |k| == 32 witness Zeros(32)

  const NO_KEY: Key := Zeros(32)

  /** The module's static state as a value. */
  datatype BunkerState = BunkerState(eph: seq<byte>, active: bool) {
    predicate Valid() {
      |eph| == EPH_SIZE
    }

    function Entered(): BunkerState {
      this.(active := true)
    }

    function Exited(): BunkerState {
      BunkerState(Zeros(EPH_SIZE), false)
    }

    /** memcpy of the key over the start of the buffer; what lies beyond the key stays. */
    function Stored(key: seq<byte>): BunkerState
      requires Valid()
    {
      var n := if |key| > EPH_SIZE then EPH_SIZE else |key|;
      this.(eph := key[..n] + eph[n..])
    }

    function Taken(): BunkerState {
      this.(eph := Zeros(EPH_SIZE))
    }

    /** The private key a following retrieve hands out. */
    function Slot(): seq<byte>
      requires Valid()
    {
      eph[..KEY_LEN]
    }
  }

  const EMPTY_BUNKER: BunkerState := BunkerState(Zeros(EPH_SIZE), false)

  class Bunker {
    const eph: array<byte>
    var active: bool

    ghost predicate Valid() {
      eph.Length == EPH_SIZE
    }

    ghost function State(): BunkerState
      reads this, eph
    {
      BunkerState(eph[..], active)
    }

    constructor ()
      ensures Valid() && fresh(eph) && State() == EMPTY_BUNKER
    {
      eph := new byte[EPH_SIZE](_ => 0);
      active := false;
    }

    method Enter()
      modifies this
      ensures State() == old(State()).Entered()
      ensures active
    {
      active := true;
    }

    method Exit()
      requires Valid()
      modifies this, eph
      ensures State() == old(State()).Exited()
      ensures eph[..] == Zeros(64) && !active
    {
      Clear();
      active := false;
    }

    /** memset of the whole buffer. */
    method Clear()
      requires Valid()
      modifies eph
      ensures eph[..] == Zeros(EPH_SIZE)
    {
      for i := 0 to eph.Length
        invariant forall k :: 0 <= k < i ==> eph[k] == 0
      {
        eph[i] := 0;
      }
    }

    method StoreEphemeral(key: seq<byte>)
      requires Valid()
      modifies eph
      ensures State() == old(State()).Stored(key)
      ensures var n := if |key| > 64 then 64 else |key|;
              eph[..] == key[..n] + old(eph[..])[n..]
    {
      var len := |key|;
      if len > eph.Length { len := eph.Length; }
      for i := 0 to len
        invariant forall k :: 0 <= k < i ==> eph[k] == key[k]
        invariant forall k :: i <= k < eph.Length ==> eph[k] == old(eph[k])
      {
        eph[i] := key[i];
      }
      assert eph[..] == key[..len] + old(eph[..])[len..];
    }

    /** Copies the key out and erases the buffer: a stored key is handed out once. */
    method RetrieveEphemeral(len: nat) returns (key: seq<byte>)
      requires Valid()
      modifies eph
      ensures key == old(eph[..])[..if len > 64 then 64 else len]
      ensures State() == old(State()).Taken()
      ensures eph[..] == Zeros(64)
    {
      var n := len;
      if n > eph.Length { n := eph.Length; }
      key := eph[..n];
      Clear();
    }

    /** Key generation nests its own enter and exit, so it always leaves the bunker. */
    method KeygenDilithium2()
      requires Valid()
      modifies this, eph
      ensures State() == old(State()).Exited()
      ensures eph[..] == Zeros(64) && !active
    {
      Enter();
      Exit();
    }
  }
}
