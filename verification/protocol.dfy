/** The handshake end to end: the bytes each side puts on the wire are read
    back by the other side, possibly on a host of the other byte order. */
module Protocol {
  import opened Wrappers
  import opened Common
  import opened Server
  import opened Client

  /** The whole exchange when every `send` and `recv` succeeds: the client
      on host `client` sends its magic, the server on host `server` answers
      with the challenge it builds from its random reads `lowFrom` and
      `highFrom`, and the client replies with `reply` of what it received.
      Returns the server's verdict. */
  function Exchange(server: Endian, client: Endian, lowFrom: bv64, highFrom: bv64, reply: bv64 -> bv64): (h: Handshake)
  {
    var hello := FromMem32(server, Mem32(client, Htonl(client, Magic)));
    var challenge := HtonllTwice(server, lowFrom, highFrom);
    var received := FromMem64(client, Mem64(server, challenge));
    var back := FromMem64(server, Mem64(client, reply(received)));
    ServerHandshake(server, Some(hello), lowFrom, highFrom, true, Some(back))
  }

  /** The reply the client program computes for a received challenge. */
  function HonestReply(client: Endian): bv64 -> bv64 {
    (received: bv64) => ClientHandshake(client, true, Some(received), true).reply.GetOr(0)
  }

  /** An honest client is accepted whatever the byte orders of the two
      hosts and whatever the random reads: the magic and the challenge
      survive the trip, and the reply decodes to the hash iterated `x mod 69`
      times on the challenge `x`. */
  lemma HonestClientAccepted(server: Endian, client: Endian, lowFrom: bv64, highFrom: bv64)
    ensures Exchange(server, client, lowFrom, highFrom, HonestReply(client)).accepted
  {
    hide Htonl, Htonll, HtonllTwice, Spliced, Mem32, Mem64, FromMem32, FromMem64, Expected, ClientHandshake, ServerHandshake;
    var x := Spliced(server, lowFrom, highFrom);
    HtonllTwiceSpliced(server, lowFrom, highFrom);
    Transfer32(client, server, Magic);
    Transfer64(server, client, x);
    var received := FromMem64(client, Mem64(server, HtonllTwice(server, lowFrom, highFrom)));
    var r := ClientHandshake(client, true, Some(received), true);
    assert Ntohll(client, received) == x;
    assert r.reply.Some? && Ntohll(client, r.reply.value) == Expected(x);
    HtonllRoundTrip(client, r.reply.value);
    assert r.reply.value == Htonll(client, Expected(x));
    Transfer64(client, server, Expected(x));
    HandshakeAccepts(server, Some(FromMem32(server, Mem32(client, Htonl(client, Magic)))), lowFrom, highFrom, true,
      Some(FromMem64(server, Mem64(client, r.reply.value))));
  }

  /** Any client whose reply, once on the server, differs from the expected
      value is turned away, even though it got the challenge. */
  lemma WrongReplyRejected(server: Endian, client: Endian, lowFrom: bv64, highFrom: bv64, reply: bv64 -> bv64)
    requires var received := FromMem64(client, Mem64(server, HtonllTwice(server, lowFrom, highFrom)));
      Ntohll(server, FromMem64(server, Mem64(client, reply(received)))) != Expected(Spliced(server, lowFrom, highFrom))
    ensures !Exchange(server, client, lowFrom, highFrom, reply).accepted
    ensures Exchange(server, client, lowFrom, highFrom, reply).challenge.Some?
  {
    hide Htonl, Htonll, HtonllTwice, Spliced, Mem32, Mem64, FromMem32, FromMem64, Expected, ServerHandshake;
    Transfer32(client, server, Magic);
    var received := FromMem64(client, Mem64(server, HtonllTwice(server, lowFrom, highFrom)));
    HandshakeAccepts(server, Some(FromMem32(server, Mem32(client, Htonl(client, Magic)))), lowFrom, highFrom, true,
      Some(FromMem64(server, Mem64(client, reply(received)))));
  }
}
