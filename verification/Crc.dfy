/** Which of the cluster's hash slots a key belongs to; the checksum itself is a parameter. */
module Crc {
  import opened RespGrammar

  const REDIS_CLUSTER_HASH_SLOTS: nat := 16384

  const OPEN: byte := 123
  const CLOSE: byte := 125

  /** bytes.find for one byte; the length stands for "not found". */
  function Find(s: bytes, b: byte, from: nat): (i: nat)
    requires from <= |s|
    ensures from <= i <= |s|
    ensures i < |s| ==> s[i] == b
    ensures forall j | from <= j < i :: s[j] != b
    decreases |s| - from
  {
    if from == |s| || s[from] == b then from else Find(s, b, from + 1)
  }

  /** The part of the key that is hashed. */
  function Hashed(key: bytes): bytes {
    var start := Find(key, OPEN, 0);
    if start < |key| then
      var end := Find(key, CLOSE, start + 1);
      if end < |key| && end != start + 1 then key[start + 1..end] else key
    else key
  }

  function KeySlot(crc: bytes -> nat, key: bytes, bucket: nat): (slot: nat)
    requires bucket > 0
    ensures slot < bucket
  {
    crc(Hashed(key)) % bucket
  }

  /**
   The key is `before` { tag } `after` with the first brace, a non-empty tag and the first closing
   brace behind it.
   */
  predicate Tagged(key: bytes, before: bytes, tag: bytes, after: bytes) {
    && key == before + [OPEN] + tag + [CLOSE] + after
    && OPEN !in before && CLOSE !in tag && tag != []
  }

  /** A tagged key is hashed by its tag alone. */
  lemma TaggedHashesTag(key: bytes, before: bytes, tag: bytes, after: bytes)
    requires Tagged(key, before, tag, after)
    ensures Hashed(key) == tag
  {
    var start, end := |before|, |before| + 1 + |tag|;
    assert key[start] == OPEN && key[end] == CLOSE;
    forall j | 0 <= j < start ensures key[j] != OPEN { assert key[j] == before[j]; }
    forall j | start + 1 <= j < end ensures key[j] != CLOSE { assert key[j] == tag[j - start - 1]; }
    assert Find(key, OPEN, 0) == start;
    assert Find(key, CLOSE, start + 1) == end;
    assert key[start + 1..end] == tag;
  }

  /** Any other key is hashed as a whole. */
  lemma UntaggedHashesAll(key: bytes)
    requires forall before, tag, after :: !Tagged(key, before, tag, after)
    ensures Hashed(key) == key
  {
    var start := Find(key, OPEN, 0);
    if start < |key| {
      var end := Find(key, CLOSE, start + 1);
      if end < |key| && end != start + 1 {
        var before, tag, after := key[..start], key[start + 1..end], key[end + 1..];
        assert key == before + [OPEN] + tag + [CLOSE] + after;
        assert Tagged(key, before, tag, after);
      }
    }
  }

  /** Keys with the same hash tag share a slot. */
  lemma SameTagSameSlot(crc: bytes -> nat, bucket: nat, k1: bytes, k2: bytes, b1: bytes, b2: bytes, tag: bytes,
      a1: bytes, a2: bytes)
    requires bucket > 0 && Tagged(k1, b1, tag, a1) && Tagged(k2, b2, tag, a2)
    ensures KeySlot(crc, k1, bucket) == KeySlot(crc, k2, bucket) == crc(tag) % bucket
  {
    TaggedHashesTag(k1, b1, tag, a1);
    TaggedHashesTag(k2, b2, tag, a2);
  }
}
