/** The challenge protocol with the cryptography that judges its responses: ChallengeManager of
    challenge-manager.mjs for a relay with a given private key. */
module Handshake {
  import opened NumberTheory
  import opened Keys
  import opened Messages
  import C = Challenges

  /** The judgement of a relay with the given private key. */
  function RelayJudge(c: Params, t: Codec, relay: string): C.Judge
    requires c.p > 0
  {
    (pubkey, challenge, response: C.Response) =>
      ResponseMatches(c, t, relay, pubkey, challenge, Sealed(response.ciphertext, response.iv))
  }

  /** The response was made by the owner of the key, who encrypted m to the relay. */
  ghost predicate ResponseTo(c: Params, t: Codec, relay: string, client: string, m: string, iv: octets,
                             pubkey: string, response: C.Response)
    requires c.p > 0
  {
    && PublicKeyHex(c, relay).Ok? && PublicKeyHex(c, client).Ok? && PublicKeyHex(c, client).value == pubkey
    && var r := EncryptWithSharedSecret(c, t, client, PublicKeyHex(c, relay).value, m, iv);
       r.Ok? && response == C.Response(r.value.ciphertext, r.value.iv)
  }

  /** A client that encrypted m as its response gets a token exactly when m is the challenge that was last stored for
      its key when the verification began, whatever happens while it is suspended. */
  lemma ResponseAcceptedIff(c: Params, t: Codec, relay: string, client: string, m: string, iv: octets,
                            ss: seq<C.State>, es: seq<C.Event>, b: nat, n: nat, call: C.CallId) returns (i: nat)
    requires GoodParams(c) && Prime(c.n) && GoodCodec(t) && |iv| == 16
    requires C.Run(ss, es) && ss[0].judge == RelayJudge(c, t, relay)
    requires n < |es| && C.Suspends(ss, es, b, n, call) && es[n] == C.End(call)
    requires ResponseTo(c, t, relay, client, m, iv, es[b].pubkey, es[b].response)
    ensures es[b].pubkey in ss[b].challenges && ss[b].challenges[es[b].pubkey] < |ss[b].entries|
    ensures i < b && es[i].Store? && es[i].pubkey == es[b].pubkey
    ensures forall j :: i < j < b ==> !(es[j].Store? && es[j].pubkey == es[b].pubkey)
    ensures var id := ss[b].challenges[es[b].pubkey];
            && ss[b].entries[id].challenge == es[i].challenge
            && (C.TokenAt(ss, es, n, id) <==> m == es[i].challenge)
  {
    C.TokenIffMatched(ss, es, b, n, call);
    i := C.StoredAs(ss, es, b, es[b].pubkey);
    HonestResponseMatches(c, t, client, relay, m, ss[b].entries[ss[b].challenges[es[b].pubkey]].challenge, iv);
  }
}
