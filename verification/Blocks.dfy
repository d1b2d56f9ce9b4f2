/**
 Blocks, their canonical text and their hash (src/domain/blockchain/Block.cpp, src/utils/sha256.hpp).

 Cryptography is a value of type `Crypto`: every result holds for every digest function into 32
 bytes and for every signature and encryption scheme. No function into 32 bytes is injective on
 all strings, so nothing here assumes that it is. Where a result needs two texts with one hash to
 be one text, it says so about the blocks at hand: the alternative is a `Clash` between two of them.
 */
module Blocks {
  import opened Hex

  type UInt32 = n: nat | n < 0x1_0000_0000
  type UInt64 = n: nat | n < 0x1_0000_0000_0000_0000

  type Digest = d: seq<byte> | |d| == 32 witness seq(32, _ => 0)

  /** Keys, signatures and ciphers are texts, as they are in the configuration, in blocks and in
      messages (ICrypto::keyToString / stringToKey are folded into the operations). */
  datatype Crypto = Crypto(
    digest: string -> Digest,
    sign: (string, string) -> string,              // message, private key
    verify: (string, string, string) -> bool,      // message, signature, public key
    encrypt: (string, string, string) -> string,   // text, own private key, other public key
    decrypt: (string, string, string) -> Option<string>,  // None: the cipher was rejected
    paired: (string, string) -> bool               // private key, public key
  )

  // What ICrypto promises of matching keys.
  ghost predicate Lawful(c: Crypto) {
    && (forall m, priv, pub :: c.paired(priv, pub) ==> c.verify(m, c.sign(m, priv), pub))
    && (forall m, priv, pub, priv', pub' :: c.paired(priv, pub) && c.paired(priv', pub') ==>
          && c.decrypt(c.encrypt(m, priv, pub'), priv, pub') == Some(m)
          && c.decrypt(c.encrypt(m, priv, pub'), priv', pub) == Some(m))
  }

  // A scheme in the manner of the test suite's XORCrypto: one key for both roles, a signature that is
  // checked by making it again, a cipher that undoes itself.
  const TOY_CRYPTO := Crypto(
    s => seq(32, i => |s| % 256),
    (m, priv) => priv + m,
    (m, sig, pub) => sig == pub + m,
    (m, priv, pub) => m,
    (cipher, priv, pub) => Some(cipher),
    (priv, pub) => priv == pub)

  // So the laws ask for nothing impossible.
  lemma LawsAreConsistent()
    ensures Lawful(TOY_CRYPTO) && TOY_CRYPTO.paired("key", "key")
  {
  }

  datatype Block = Block(
    hash: string,
    previousHash: string,
    payloadHash: string,
    authorPublicKey: string,
    signature: string,
    timestamp: UInt64
  )

  const NO_HASH: string := "0"

  // The default-constructed block, which stands for "no block" when the table is empty.
  const DEFAULT_BLOCK := Block(NO_HASH, NO_HASH, "0", "0", "0", 0)

  const BAR: string := "|"

  function Decimal(n: nat): string {
    if n < 10 then [('0' as int + n) as char]
    else Decimal(n / 10) + [('0' as int + n % 10) as char]
  }

  // toStringForHash: the text that is hashed and signed. The signature is not part of it.
  function Canonical(b: Block): string {
    b.previousHash + BAR + (b.payloadHash + BAR + b.authorPublicKey) + BAR + Decimal(b.timestamp)
  }

  // The order of the fields: parent, payload hash, author key, time in decimal without leading zeros.
  lemma CanonicalOrder(b: Block)
    ensures b.timestamp == 1207 ==>
              Canonical(b) == b.previousHash + "|" + b.payloadHash + "|" + b.authorPublicKey + "|1207"
  {
    assert Decimal(1) == "1" && Decimal(12) == "12" && Decimal(120) == "120" && Decimal(1207) == "1207";
  }

  function Sha256(c: Crypto, text: string): string {
    HexText(c.digest(text))
  }

  method ComputeHash(c: Crypto, b: Block) returns (b': Block)
    ensures b' == b.(hash := Sha256(c, Canonical(b)))
    ensures Canonical(b') == Canonical(b)
  {
    var body := Canonical(b);
    var hash := ToHex(c.digest(body));
    b' := b.(hash := hash);
  }

  predicate BarFree(s: string) {
    forall i | 0 <= i < |s| :: s[i] != '|'
  }

  // A hash has 64 characters, none of them '|', so it is never the "0" that means "no block".
  lemma Sha256Shape(c: Crypto, text: string)
    ensures |Sha256(c, text)| == 64
    ensures BarFree(Sha256(c, text))
    ensures Sha256(c, text) != NO_HASH
  {
    HexTextShape(c.digest(text));
    var h := Sha256(c, text);
    assert forall i | 0 <= i < |h| :: IsHexDigit(h[i]);
  }

  // ---------- Decimal text ----------

  function DecimalValue(s: string): int {
    if s == [] then 0 else 10 * DecimalValue(s[..|s| - 1]) + (s[|s| - 1] as int - '0' as int)
  }

  lemma {:induction false} DecimalRoundTrip(n: nat)
    ensures DecimalValue(Decimal(n)) == n
    ensures BarFree(Decimal(n))
  {
    var last := ('0' as int + n % 10) as char;
    if n < 10 {
      assert Decimal(n)[..0] == [];
    } else {
      DecimalRoundTrip(n / 10);
      assert Decimal(n)[..|Decimal(n)| - 1] == Decimal(n / 10);
    }
  }

  // ---------- The canonical text determines the block ----------

  lemma SplitAtFirstBar(a: string, s: string, a': string, s': string)
    requires BarFree(a) && BarFree(a')
    requires a + BAR + s == a' + BAR + s'
    ensures a == a' && s == s'
  {
    var t := a + BAR + s;
    assert t == a' + BAR + s';
    assert forall i | 0 <= i < |a| :: t[i] == a[i];
    assert forall i | 0 <= i < |a'| :: t[i] == a'[i];
    assert t[|a|] == '|' && t[|a'|] == '|';
    assert |a| == |a'|;
    assert t[..|a|] == a && t[..|a'|] == a';
    assert t[|a| + 1..] == s && t[|a'| + 1..] == s';
  }

  lemma SplitAtLastBar(s: string, d: string, s': string, d': string)
    requires BarFree(d) && BarFree(d')
    requires s + BAR + d == s' + BAR + d'
    ensures s == s' && d == d'
  {
    var t := s + BAR + d;
    assert t == s' + BAR + d';
    assert forall i | |s| < i < |t| :: t[i] == d[i - |s| - 1];
    assert forall i | |s'| < i < |t| :: t[i] == d'[i - |s'| - 1];
    assert t[|s|] == '|' && t[|s'|] == '|';
    assert |s| == |s'|;
    assert t[..|s|] == s && t[..|s'|] == s';
    assert t[|s| + 1..] == d && t[|s'| + 1..] == d';
  }

  // The last field is decimal digits, so the text always gives back the timestamp and what precedes it.
  lemma CanonicalTimestamp(x: Block, y: Block)
    requires Canonical(x) == Canonical(y)
    ensures x.timestamp == y.timestamp
    ensures x.previousHash + BAR + (x.payloadHash + BAR + x.authorPublicKey)
         == y.previousHash + BAR + (y.payloadHash + BAR + y.authorPublicKey)
  {
    DecimalRoundTrip(x.timestamp);
    DecimalRoundTrip(y.timestamp);
    SplitAtLastBar(x.previousHash + BAR + (x.payloadHash + BAR + x.authorPublicKey), Decimal(x.timestamp),
                   y.previousHash + BAR + (y.payloadHash + BAR + y.authorPublicKey), Decimal(y.timestamp));
  }

  lemma CanonicalParent(x: Block, y: Block)
    requires BarFree(x.previousHash) && BarFree(y.previousHash)
    requires Canonical(x) == Canonical(y)
    ensures x.previousHash == y.previousHash && x.timestamp == y.timestamp
    ensures x.payloadHash + BAR + x.authorPublicKey == y.payloadHash + BAR + y.authorPublicKey
  {
    CanonicalTimestamp(x, y);
    SplitAtFirstBar(x.previousHash, x.payloadHash + BAR + x.authorPublicKey,
                    y.previousHash, y.payloadHash + BAR + y.authorPublicKey);
  }

  // The fields under the hash: all but the hash itself and the signature.
  predicate SameContent(x: Block, y: Block) {
    && x.previousHash == y.previousHash
    && x.payloadHash == y.payloadHash
    && x.authorPublicKey == y.authorPublicKey
    && x.timestamp == y.timestamp
  }

  // With '|' in neither parent nor payload hash the text fixes all four fields, whatever the author key holds.
  lemma CanonicalContent(x: Block, y: Block)
    requires BarFree(x.previousHash) && BarFree(y.previousHash)
    requires BarFree(x.payloadHash) && BarFree(y.payloadHash)
    ensures Canonical(x) == Canonical(y) <==> SameContent(x, y)
  {
    if Canonical(x) == Canonical(y) {
      CanonicalParent(x, y);
      SplitAtFirstBar(x.payloadHash, x.authorPublicKey, y.payloadHash, y.authorPublicKey);
    }
  }

  // A block whose text no other content shares, among blocks with a '|'-free parent.
  ghost predicate UniquelyReadable(x: Block) {
    forall y: Block :: BarFree(y.previousHash) && Canonical(y) == Canonical(x) ==> SameContent(x, y)
  }

  // Payload hash and author key share one separator, so moving the boundary gives the same text:
  // the text is unambiguous exactly when neither of the two holds a '|'.
  lemma UniquelyReadableExactly(x: Block)
    requires BarFree(x.previousHash)
    ensures UniquelyReadable(x) <==> BarFree(x.payloadHash) && BarFree(x.authorPublicKey)
  {
    if !BarFree(x.payloadHash) {
      var p := x.payloadHash;
      var k :| 0 <= k < |p| && p[k] == '|';
      var y := x.(payloadHash := p[..k], authorPublicKey := p[k + 1..] + BAR + x.authorPublicKey);
      assert p == p[..k] + BAR + p[k + 1..];
      assert y.payloadHash + BAR + y.authorPublicKey == x.payloadHash + BAR + x.authorPublicKey;
      assert Canonical(y) == Canonical(x) && |y.payloadHash| < |x.payloadHash|;
    } else if !BarFree(x.authorPublicKey) {
      var a := x.authorPublicKey;
      var k :| 0 <= k < |a| && a[k] == '|';
      var y := x.(payloadHash := x.payloadHash + BAR + a[..k], authorPublicKey := a[k + 1..]);
      assert a == a[..k] + BAR + a[k + 1..];
      assert y.payloadHash + BAR + y.authorPublicKey == x.payloadHash + BAR + x.authorPublicKey;
      assert Canonical(y) == Canonical(x) && |y.payloadHash| > |x.payloadHash|;
    } else {
      forall y: Block | BarFree(y.previousHash) && Canonical(y) == Canonical(x) ensures SameContent(x, y) {
        CanonicalParent(x, y);
        SplitSameFields(x.payloadHash, x.authorPublicKey, y.payloadHash, y.authorPublicKey);
      }
    }
  }

  lemma SplitSameFields(p: string, a: string, p': string, a': string)
    requires BarFree(p) && BarFree(a)
    requires p + BAR + a == p' + BAR + a'
    ensures p == p' && a == a'
  {
    var t := p + BAR + a;
    assert t == p' + BAR + a';
    assert forall i | 0 <= i < |p| :: t[i] == p[i];
    assert forall i | |p| < i < |t| :: t[i] == a[i - |p| - 1];
    assert t[|p'|] == '|';
    assert |p| == |p'|;
    assert t[..|p|] == p && t[..|p'|] == p';
    assert t[|p| + 1..] == a && t[|p'| + 1..] == a';
  }

  // ---------- Hash clashes ----------

  // Two blocks with different texts and one hash: a collision of the digest, exhibited.
  predicate Clash(c: Crypto, x: Block, y: Block) {
    Canonical(x) != Canonical(y) && Sha256(c, Canonical(x)) == Sha256(c, Canonical(y))
  }

  // toHex is injective, so a clash of hashes is a collision of the digest itself.
  lemma ClashIsDigestCollision(c: Crypto, x: Block, y: Block)
    ensures Clash(c, x, y) <==>
            Canonical(x) != Canonical(y) && c.digest(Canonical(x)) == c.digest(Canonical(y))
  {
    HexRoundTrip(c.digest(Canonical(x)));
    HexRoundTrip(c.digest(Canonical(y)));
  }
}
