/** The access-hash store: colon-separated decimal keys and 8-byte little-endian values in one bucket. */
module Hasher {
  import opened Decimal
  import opened Wrappers
  import Chunks
  import Int64
  import Text

  newtype Byte = x: int | 0 <= x < 256

  datatype Kind = Channel | User

  function Key(kind: Kind, userID: int, peerID: int): string {
    (if kind == Channel then "c:" else "u:") + FormatInt(userID) + ":" + FormatInt(peerID)
  }

  /** No two peers, and no channel and user, ever share a key. */
  lemma KeyInjective(k1: Kind, u1: int, p1: int, k2: Kind, u2: int, p2: int)
    requires Key(k1, u1, p1) == Key(k2, u2, p2)
    ensures k1 == k2 && u1 == u2 && p1 == p2
  {
    KeyParts(k1, u1, p1);
    KeyParts(k2, u2, p2);
    assert "c:"[0] != "u:"[0];
    JoinedInjective(u1, p1, u2, p2);
  }

  /** A key is two characters for the kind, and the two numbers joined by a colon. */
  lemma KeyParts(kind: Kind, userID: int, peerID: int)
    ensures var key := Key(kind, userID, peerID);
            && |key| >= 2 && key[..2] == (if kind == Channel then "c:" else "u:")
            && key[2..] == FormatInt(userID) + [':'] + FormatInt(peerID)
  {
    var head, user, peer := if kind == Channel then "c:" else "u:", FormatInt(userID), FormatInt(peerID);
    SplitHead(head, user, peer);
  }

  lemma SplitHead(head: string, user: string, peer: string)
    requires |head| == 2
    ensures (head + user + ":" + peer)[..2] == head && (head + user + ":" + peer)[2..] == user + [':'] + peer
  {}

  lemma JoinedInjective(u1: int, p1: int, u2: int, p2: int)
    requires FormatInt(u1) + [':'] + FormatInt(p1) == FormatInt(u2) + [':'] + FormatInt(p2)
    ensures u1 == u2 && p1 == p2
  {
    FormatHasNoColon(u1);
    FormatHasNoColon(u2);
    Text.CutJoined(FormatInt(u1), ':', FormatInt(p1));
    Text.CutJoined(FormatInt(u2), ':', FormatInt(p2));
    FormatInjective(u1, u2);
    FormatInjective(p1, p2);
  }

  function Unsigned(hash: int): (u: nat)
    requires Int64.Fits(hash)
    ensures u < Int64.MODULUS
  {
    if hash < 0 then hash + Int64.MODULUS else hash
  }

  /** The k low-order bytes of u, least significant first. */
  function LittleEndian(u: nat, k: nat): (s: seq<Byte>)
    ensures |s| == k
  {
    if k == 0 then [] else [(u % 256) as Byte] + LittleEndian(u / 256, k - 1)
  }

  function FromLittleEndian(s: seq<Byte>): nat {
    if s == [] then 0 else s[0] as int + 256 * FromLittleEndian(s[1..])
  }

  function Power256(k: nat): (r: nat)
    ensures r > 0
  {
    if k == 0 then 1 else 256 * Power256(k - 1)
  }

  lemma {:induction false} LittleEndianRoundTrip(u: nat, k: nat)
    requires u < Power256(k)
    ensures FromLittleEndian(LittleEndian(u, k)) == u
  {
    if k > 0 {
      LittleEndianRoundTrip(u / 256, k - 1);
      assert LittleEndian(u, k)[1..] == LittleEndian(u / 256, k - 1);
    }
  }

  /** The i-th byte is the i-th digit in base 256, the lowest first. */
  lemma {:induction false} LowByteFirst(u: nat, k: nat, i: nat)
    requires i < k
    ensures LittleEndian(u, k)[i] as int == (u / Power256(i)) % 256
    decreases k
  {
    if i > 0 {
      LowByteFirst(u / 256, k - 1, i - 1);
      QuotientTwice(u, Power256(i - 1));
    }
  }

  lemma QuotientTwice(u: nat, n: nat)
    requires n > 0
    ensures u / 256 / n == u / (256 * n)
  {
    var q := u / 256;
    Chunks.QuotientBounds(q, n);
    assert 256 * (n * (q / n)) == (256 * n) * (q / n);
    Chunks.QuotientOf(u, 256 * n, q / n);
  }

  /** The eight stored bytes give back the signed hash, negative ones included. */
  lemma StoredHashRoundTrip(hash: int)
    requires Int64.Fits(hash)
    ensures Int64.Wrap(FromLittleEndian(LittleEndian(Unsigned(hash), 8))) == hash
  {
    assert Power256(8) == Int64.MODULUS by {
      assert Power256(4) == 0x1_0000_0000;
    }
    LittleEndianRoundTrip(Unsigned(hash), 8);
    if hash < 0 {
      assert Unsigned(hash) - Int64.MIN == Int64.MODULUS + (hash - Int64.MIN);
    }
  }

  class HashStore {
    var bucket: map<string, seq<Byte>>

    /** Every stored value is the eight bytes a previous write put there. */
    ghost predicate Valid()
      reads this
    {
      forall k :: k in bucket ==> |bucket[k]| == 8
    }

    ghost function Lookup(kind: Kind, userID: int, peerID: int): Option<int>
      reads this
    {
      var k := Key(kind, userID, peerID);
      if k in bucket then Some(Int64.Wrap(FromLittleEndian(bucket[k]))) else None
    }

    constructor ()
      ensures Valid()
      ensures forall k, u, p :: Lookup(k, u, p) == None
    {
      bucket := map[];
    }

    /** Writes the value byte by byte and then the bucket, unless the transaction fails. */
    method Set(kind: Kind, userID: int, peerID: int, hash: int, commits: bool)
      requires Valid() && Int64.Fits(hash)
      modifies this
      ensures Valid()
      ensures bucket == if commits then old(bucket)[Key(kind, userID, peerID) := LittleEndian(Unsigned(hash), 8)]
                        else old(bucket)
      ensures forall k, u, p :: Lookup(k, u, p) ==
                                if commits && k == kind && u == userID && p == peerID then Some(hash)
                                else old(Lookup(k, u, p))
    {
      var u := Unsigned(hash);
      var buf := new Byte[8];
      var rest := u;
      for i := 0 to 8
        modifies buf
        invariant buf[..i] + LittleEndian(rest, 8 - i) == LittleEndian(u, 8)
      {
        ghost var tail := LittleEndian(rest / 256, 7 - i);
        assert LittleEndian(rest, 8 - i) == [(rest % 256) as Byte] + tail;
        ghost var head := buf[..i];
        buf[i] := (rest % 256) as Byte;
        assert buf[..i + 1] == head + [(rest % 256) as Byte];
        assert (head + [(rest % 256) as Byte]) + tail == head + ([(rest % 256) as Byte] + tail);
        rest := rest / 256;
      }
      assert buf[..] == buf[..8] == LittleEndian(u, 8);
      if commits {
        bucket := bucket[Key(kind, userID, peerID) := buf[..]];
      }
      forall k, v, p ensures Lookup(k, v, p) ==
                             if commits && k == kind && v == userID && p == peerID then Some(hash)
                             else old(Lookup(k, v, p))
      {
        if Key(k, v, p) == Key(kind, userID, peerID) {
          KeyInjective(k, v, p, kind, userID, peerID);
          StoredHashRoundTrip(hash);
        }
      }
    }

    method Get(kind: Kind, userID: int, peerID: int) returns (hash: int, found: bool)
      requires Valid()
      ensures found <==> Lookup(kind, userID, peerID).Some?
      ensures hash == if found then Lookup(kind, userID, peerID).value else 0
    {
      var k := Key(kind, userID, peerID);
      hash, found := 0, false;
      if k in bucket {
        found := true;
        hash := Int64.Wrap(FromLittleEndian(bucket[k]));
      }
    }
  }
}
