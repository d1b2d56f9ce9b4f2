/**
 Peers and text messages as values (src/domain/peer/UserPeer.cpp, src/infra/message/TextMessage.cpp).
 */
module TextMessages {
  import opened Hex
  import opened Blocks

  datatype UserHost = UserHost(host: string, port: nat)

  datatype UserPeer = UserPeer(address: UserHost, publicKey: string)

  datatype TextMessage = TextMessage(
    id: string,
    from: UserPeer,
    to: UserPeer,
    timestamp: UInt64,
    text: string,
    blockHash: string
  )

  // The serialized message: the text is encrypted for the receiver and signed by the sender.
  datatype Envelope = Envelope(
    id: string,
    from: UserPeer,
    to: UserPeer,
    timestamp: UInt64,
    cipher: string,
    signature: string,
    blockHash: string
  )

  function Serialize(c: Crypto, m: TextMessage, privateKey: string): Envelope {
    Envelope(m.id, m.from, m.to, m.timestamp,
             c.encrypt(m.text, privateKey, m.to.publicKey), c.sign(m.text, privateKey), m.blockHash)
  }

  // The decrypting constructor. With `inverted` the session key is made with the receiver's key, which is
  // how a sender reads back its own message. None: the cipher or the signature was rejected.
  function Deserialize(c: Crypto, e: Envelope, privateKey: string, inverted: bool): Option<TextMessage> {
    var other := if inverted then e.to.publicKey else e.from.publicKey;
    match c.decrypt(e.cipher, privateKey, other)
    case None => None
    case Some(plain) =>
      if c.verify(plain, e.signature, e.from.publicKey)
      then Some(TextMessage(e.id, e.from, e.to, e.timestamp, plain, e.blockHash))
      else None
  }

  // A text is read exactly when it decrypts and its author's key verifies the signature of the plain text.
  lemma ReadsExactly(c: Crypto, e: Envelope, privateKey: string, inverted: bool, m: TextMessage)
    ensures Deserialize(c, e, privateKey, inverted) == Some(m) <==>
            && c.decrypt(e.cipher, privateKey, if inverted then e.to.publicKey else e.from.publicKey) == Some(m.text)
            && c.verify(m.text, e.signature, e.from.publicKey)
            && m == TextMessage(e.id, e.from, e.to, e.timestamp, m.text, e.blockHash)
  {
  }

  // Both ends read back the message that was serialized.
  lemma SerializeRoundTrip(c: Crypto, m: TextMessage, sender: string, receiver: string)
    requires Lawful(c)
    requires c.paired(sender, m.from.publicKey) && c.paired(receiver, m.to.publicKey)
    ensures Deserialize(c, Serialize(c, m, sender), sender, true) == Some(m)
    ensures Deserialize(c, Serialize(c, m, sender), receiver, false) == Some(m)
  {
    var e := Serialize(c, m, sender);
    assert c.decrypt(e.cipher, sender, m.to.publicKey) == Some(m.text);
    assert c.decrypt(e.cipher, receiver, m.from.publicKey) == Some(m.text);
  }

  // Passing std::string::data() on as a C string stops at the first NUL.
  function UpToNul(s: string): string {
    if s == [] || s[0] == '\0' then [] else [s[0]] + UpToNul(s[1..])
  }

  function PayloadHash(c: Crypto, text: string): string {
    Sha256(c, UpToNul(text))
  }
}
