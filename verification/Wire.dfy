/** The connection as the server sees it: bytes arrive in pieces whose sizes nobody controls. */
module Wire {

  class Socket {
    /** What the peer has sent, or will send, and the server has not received yet. */
    var unread: string
    /** Whether the peer closes the connection after that; if not, further reads time out. */
    const closes: bool

    constructor (stream: string, closes: bool)
      ensures unread == stream && this.closes == closes
    {
      unread := stream;
      this.closes := closes;
    }

    /** Waits for input; false is a timeout. */
    method Select() returns (ready: bool)
      ensures ready <==> unread != [] || closes
    {
      ready := unread != [] || closes;
    }

    /** How much input is waiting right now: any amount, but not none while bytes are outstanding. */
    method Available() returns (n: nat)
      ensures n <= |unread| && (unread != [] ==> n > 0)
    {
      if unread == [] {
        n := 0;
      } else {
        n :| 0 < n <= |unread|;
      }
    }

    /** Receives some of the next n bytes into a[at..]; k == 0 is the end of the stream. */
    method Recv(a: array<char>, at: nat, n: nat) returns (k: nat)
      requires at + n <= a.Length
      modifies this, a
      ensures k <= n && k <= |old(unread)| && (n > 0 && old(unread) != [] ==> k > 0)
      ensures unread == old(unread)[k..]
      ensures a[..] == old(a[..at]) + old(unread)[..k] + old(a[at + k..])
    {
      k := 0;
      if n > 0 && unread != [] {
        k :| 0 < k <= n && k <= |unread|;
      }
      forall i | 0 <= i < k {
        a[at + i] := unread[i];
      }
      unread := unread[k..];
    }
  }
}
