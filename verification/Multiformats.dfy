/**
  CIDs, multihashes and their text forms. The encodings and hash functions live in other
  libraries; here they are the fields of a record, and `Lawful` states the only facts about
  them that the proofs use.
 */
module Multiformats {
  import opened Options
  import opened Entries

  datatype Cid = Cid(version: nat, codec: nat, hash: Multihash)

  const SHA2_256: nat := 0x12
  const IDENTITY: nat := 0
  const DAG_PB: nat := 0x70

  datatype Codecs = Codecs(
    decodeCid: string -> Option<Cid>,
    toB58: Multihash -> string,
    fromB58: string -> Option<Multihash>,
    decodeMultihash: Multihash -> Option<(nat, nat)>,  // function code and length
    hasHasher: (nat, nat) -> bool,
    sum: (string, nat) -> Option<Multihash>,
    cidV1Base32: (nat, Multihash) -> Option<string>,
    newPath: string -> Option<string>)
  {
    /**
      Base58 printing is injective and undoes parsing; the hash of a decoded CID prints to
      text that parses back to it; and a 46-byte string starting with `Qm` decodes exactly
      when it is a base58 multihash, to the version-0 CID of that multihash.
     */
    ghost predicate Lawful() {
      && (forall m, n :: toB58(m) == toB58(n) ==> m == n)
      && (forall s :: fromB58(s).Some? ==> toB58(fromB58(s).value) == s)
      && (forall s :: decodeCid(s).Some? ==> fromB58(toB58(decodeCid(s).value.hash)) == Some(decodeCid(s).value.hash))
      && (forall s :: LooksLikeV0(s) ==> decodeCid(s) ==
                                         match fromB58(s)
                                         case None => None
                                         case Some(m) => Some(Cid(0, DAG_PB, m)))
    }

    /** Whether a CID is one of the well-known empty blocks and directories. */
    predicate IsSafe(c: Cid) {
      exists i | 0 <= i < |SAFE_CIDS| :: decodeCid(SAFE_CIDS[i]) == Some(c)
    }
  }

  predicate LooksLikeV0(s: string) {
    |s| == 46 && "Qm" <= s
  }

  const SAFE_CIDS: seq<string> := [
    "QmUNLLsPACCz1vLxQVkXqqLX5R1X345qqfHbsf67hvA3Nn",
    "bafyaabakaieac",
    "bafkreihdwdcefgh4dqkjv67uzcmw7ojee6xedzdetojuzjevtenxquvyku",
    "bafkqaaa",
    "QmbFMke1KXqnYyBBWxB74N4c5SBnJMVAiMNRcGu6x1AwQH",
    "bafyreigbtj4x7ip5legnfznufuopl4sg4knzc2cof6duas4b3q2fy6swua",
    "baguqeeraiqjw7i2vwntyuekgvulpp2det2kpwt6cd7tx5ayqybqpmhfk76fa"]

  /** multihash.Encode of a SHA2-256 digest: code, length, digest. */
  function Sha256Multihash(digest: string): Multihash {
    [0x12 as char, 32 as char] + digest
  }

  /** The laws contradict nothing: a codec in which every text is the hash it names obeys them. */
  lemma LawsAreConsistent() returns (x: Codecs)
    ensures x.Lawful()
  {
    x := Codecs(
      s => Some(Cid(0, DAG_PB, s)), m => m, s => Some(s), m => Some((SHA2_256, |m|)),
      (code, length) => true, (s, code) => Some(s), (codec, m) => Some(m), s => Some(s));
    assert forall m :: x.toB58(m) == m;
    assert forall s :: x.fromB58(s) == Some(s);
    assert forall s :: x.decodeCid(s) == Some(Cid(0, DAG_PB, s));
  }
}
