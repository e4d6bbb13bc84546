/** src/dht/kbucketentry.cpp: a node of the DHT as a bucket remembers it. */
module DhtEntries {
  import opened Keys

  type Address = nat

  const QUESTIONABLE_AFTER: nat := 15 * 60 * 1000

  datatype KBucketEntry =
    KBucketEntry(addr: Address, id: Key, lastResponded: nat, failedQueries: nat, questionablePings: nat)
  {
    /** operator== looks at the address and the id only. */
    predicate Same(other: KBucketEntry) { addr == other.addr && id == other.id }

    /** Time stamps are unsigned 64-bit numbers. */
    predicate IsQuestionable(now: nat) { (now - lastResponded) % TWO_64 > QUESTIONABLE_AFTER }

    predicate IsBad(now: nat) { IsQuestionable(now) && (failedQueries > 2 || questionablePings > 2) }
  }

  /** A node is bad when it was last heard of more than 15 minutes ago and has left three queries
      or three pings unanswered. */
  lemma BadMeans(e: KBucketEntry, now: nat)
    requires e.lastResponded <= now < e.lastResponded + TWO_64
    ensures e.IsBad(now) <==> now - e.lastResponded > 900_000 && (e.failedQueries >= 3 || e.questionablePings >= 3)
  {
  }
}
