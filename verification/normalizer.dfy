/** The TTL hierarchy normalizer (`upgradeTTLHierarchy`).

    The provider's cache treats every earlier breakpoint's span as a prefix of
    each later one, so a short-lived breakpoint in front of a long-lived one
    wastes the longer retention. The normalizer finds L, the index of the last
    long-tier candidate, raises every candidate at or before L to the long
    tier, and leaves everything after L alone. Without a long candidate
    nothing changes.
 */
module Normalizer {
  import opened Optional
  import opened Tiers
  import opened Candidates

  /** Some candidate at index `i` or later is long-tier. */
  predicate LongAtOrAfter(cs: seq<Candidate>, i: int) {
    exists j :: i <= j < |cs| && 0 <= j && cs[j].tier == Long
  }

  /** Every long candidate is preceded only by long candidates. */
  predicate PrefixConsistent(cs: seq<Candidate>) {
    forall i, j :: 0 <= i < j < |cs| && cs[j].tier == Long ==> cs[i].tier == Long
  }

  /** `r` is `cs` with some tiers raised and nothing lowered or otherwise touched. */
  predicate Upgrades(cs: seq<Candidate>, r: seq<Candidate>) {
    && SameExceptTier(cs, r)
    && forall i :: 0 <= i < |cs| ==> AtLeast(r[i].tier, cs[i].tier)
  }

  /** Index of the last long candidate, -1 when there is none. */
  function LastLong(cs: seq<Candidate>): (l: int)
    ensures -1 <= l < |cs|
    ensures 0 <= l ==> cs[l].tier == Long
    ensures forall j :: l < j < |cs| ==> cs[j].tier == Short
  {
    if |cs| == 0 then -1
    else if cs[|cs| - 1].tier == Long then |cs| - 1
    else
      var front := cs[..|cs| - 1];
      var m := LastLong(front);
      assert forall j :: m < j < |cs| ==> cs[j].tier == Short by {
        forall j | m < j < |cs|
          ensures cs[j].tier == Short
        {
          if j < |cs| - 1 {
            assert cs[j] == front[j];
          }
        }
      }
      m
  }

  /** The three properties above pin the last long index down. */
  lemma LastLongUnique(cs: seq<Candidate>, l: int)
    requires -1 <= l < |cs|
    requires 0 <= l ==> cs[l].tier == Long
    requires forall j :: l < j < |cs| ==> cs[j].tier == Short
    ensures l == LastLong(cs)
  {
  }

  /** Raise every candidate at or before the last long one to the long tier.
      A candidate ends up long exactly when it, or some later candidate, was
      long; any other candidate is returned as it was. */
  function Normalize(cs: seq<Candidate>): (r: seq<Candidate>)
    ensures SameExceptTier(cs, r)
    ensures forall i :: 0 <= i < |cs| ==> (r[i].tier == Long <==> LongAtOrAfter(cs, i))
    ensures forall i :: 0 <= i < |cs| && !LongAtOrAfter(cs, i) ==> r[i] == cs[i]
  {
    var l := LastLong(cs);
    seq(|cs|, i requires 0 <= i < |cs| => if i <= l then cs[i].(tier := Long) else cs[i])
  }

  /** The shape the hierarchy promises: long up to and including the last
      original long candidate, the untouched input after it. */
  lemma NormalizeShape(cs: seq<Candidate>)
    ensures |Normalize(cs)| == |cs|
    ensures forall i :: 0 <= i <= LastLong(cs) ==> Normalize(cs)[i].tier == Long
    ensures forall i :: LastLong(cs) < i < |cs| ==> Normalize(cs)[i] == cs[i]
  {
    var l := LastLong(cs);
    forall i | 0 <= i <= l
      ensures Normalize(cs)[i].tier == Long
    {
      assert LongAtOrAfter(cs, i);
    }
  }

  /** With no long candidate the sequence comes back unchanged. */
  lemma NoLongUnchanged(cs: seq<Candidate>)
    requires forall i :: 0 <= i < |cs| ==> cs[i].tier == Short
    ensures Normalize(cs) == cs
  {
    var r := Normalize(cs);
    assert forall i :: 0 <= i < |cs| ==> r[i] == cs[i];
  }

  /** No tier is ever lowered; the result is prefix-consistent. */
  lemma NormalizeUpgrades(cs: seq<Candidate>)
    ensures Upgrades(cs, Normalize(cs))
    ensures PrefixConsistent(Normalize(cs))
  {
    var r := Normalize(cs);
    forall i | 0 <= i < |cs| && cs[i].tier == Long
      ensures r[i].tier == Long
    {
      assert LongAtOrAfter(cs, i);
    }
    forall i, j | 0 <= i < j < |cs| && r[j].tier == Long
      ensures r[i].tier == Long
    {
      var k :| j <= k < |cs| && 0 <= k && cs[k].tier == Long;
      assert LongAtOrAfter(cs, i);
    }
  }

  /** A prefix-consistent upgrade is long wherever a long candidate sits at or after. */
  lemma ConsistentUpgradeCovers(cs: seq<Candidate>, other: seq<Candidate>)
    requires Upgrades(cs, other)
    requires PrefixConsistent(other)
    ensures forall i :: 0 <= i < |cs| && LongAtOrAfter(cs, i) ==> other[i].tier == Long
  {
    forall i | 0 <= i < |cs| && LongAtOrAfter(cs, i)
      ensures other[i].tier == Long
    {
      var k :| i <= k < |cs| && 0 <= k && cs[k].tier == Long;
      assert AtLeast(other[k].tier, cs[k].tier);
      if i < k {
        assert 0 <= i < k < |other| && other[k].tier == Long;
      }
    }
  }

  /** Normalization raises as little as possible: every prefix-consistent
      upgrade of `cs` is at least as long-lived everywhere. */
  lemma NormalizeIsLeast(cs: seq<Candidate>, other: seq<Candidate>)
    requires Upgrades(cs, other)
    requires PrefixConsistent(other)
    ensures forall i :: 0 <= i < |cs| ==> AtLeast(other[i].tier, Normalize(cs)[i].tier)
  {
    ConsistentUpgradeCovers(cs, other);
  }

  /** A prefix-consistent sequence is already normalized. */
  lemma {:induction false} ConsistentIsFixpoint(cs: seq<Candidate>)
    requires PrefixConsistent(cs)
    ensures Normalize(cs) == cs
  {
    var r := Normalize(cs);
    ConsistentUpgradeCovers(cs, cs);
    forall i | 0 <= i < |cs|
      ensures r[i] == cs[i]
    {
      if LongAtOrAfter(cs, i) {
        assert SameCandidate(cs[i], r[i]);
      }
    }
  }

  /** Normalizing twice is normalizing once. */
  lemma {:induction false} Idempotent(cs: seq<Candidate>)
    ensures Normalize(Normalize(cs)) == Normalize(cs)
  {
    NormalizeUpgrades(cs);
    ConsistentIsFixpoint(Normalize(cs));
  }

  /** Normalization keeps the last long index where it was. */
  lemma LastLongPreserved(cs: seq<Candidate>)
    ensures LastLong(Normalize(cs)) == LastLong(cs)
  {
    NormalizeShape(cs);
    LastLongUnique(Normalize(cs), LastLong(cs));
  }

  /** An independent, recursive reference: walking from the back, a candidate
      becomes long when it is long or its normalized successor is. */
  function NormalizeFromBack(cs: seq<Candidate>): (r: seq<Candidate>)
    ensures |r| == |cs|
  {
    if |cs| == 0 then []
    else
      var rest := NormalizeFromBack(cs[1..]);
      if cs[0].tier == Long || (|rest| > 0 && rest[0].tier == Long)
      then [cs[0].(tier := Long)] + rest
      else [cs[0]] + rest
  }

  /** Dropping the first candidate shifts `LongAtOrAfter` by one. */
  lemma LongAtOrAfterTail(cs: seq<Candidate>, i: int)
    requires 1 <= i <= |cs|
    ensures LongAtOrAfter(cs, i) <==> LongAtOrAfter(cs[1..], i - 1)
  {
    var tail := cs[1..];
    if LongAtOrAfter(cs, i) {
      var k :| i <= k < |cs| && 0 <= k && cs[k].tier == Long;
      assert tail[k - 1].tier == Long;
    }
    if LongAtOrAfter(tail, i - 1) {
      var k :| i - 1 <= k < |tail| && 0 <= k && tail[k].tier == Long;
      assert cs[k + 1].tier == Long;
    }
  }

  /** A long candidate at or after index 0 is the first one or lies in the tail. */
  lemma LongAtOrAfterHead(cs: seq<Candidate>)
    requires |cs| > 0
    ensures LongAtOrAfter(cs, 0) <==> cs[0].tier == Long || LongAtOrAfter(cs[1..], 0)
  {
    if LongAtOrAfter(cs, 0) && cs[0].tier != Long {
      var k :| 0 <= k < |cs| && cs[k].tier == Long;
      assert cs[1..][k - 1].tier == Long;
    }
    if LongAtOrAfter(cs[1..], 0) {
      LongAtOrAfterTail(cs, 1);
    }
  }

  /** The first candidate of the recursive reference is long exactly when a
      long candidate sits anywhere in `cs`, given that this holds for the tail. */
  lemma FromBackHead(cs: seq<Candidate>)
    requires |cs| > 1 ==> (NormalizeFromBack(cs[1..])[0].tier == Long <==> LongAtOrAfter(cs[1..], 0))
    requires |cs| > 0
    ensures SameCandidate(NormalizeFromBack(cs)[0], cs[0])
    ensures NormalizeFromBack(cs)[0].tier == Long <==> LongAtOrAfter(cs, 0)
    ensures !LongAtOrAfter(cs, 0) ==> NormalizeFromBack(cs)[0] == cs[0]
  {
    LongAtOrAfterHead(cs);
  }

  /** The recursive reference satisfies the characterization of `Normalize`. */
  lemma {:induction false} FromBackCharacterized(cs: seq<Candidate>)
    ensures SameExceptTier(cs, NormalizeFromBack(cs))
    ensures forall i :: 0 <= i < |cs| ==> (NormalizeFromBack(cs)[i].tier == Long <==> LongAtOrAfter(cs, i))
    ensures forall i :: 0 <= i < |cs| && !LongAtOrAfter(cs, i) ==> NormalizeFromBack(cs)[i] == cs[i]
  {
    if |cs| > 0 {
      var tail := cs[1..];
      var rest := NormalizeFromBack(tail);
      FromBackCharacterized(tail);
      var r := NormalizeFromBack(cs);
      FromBackHead(cs);
      assert r[1..] == rest;
      forall i | 1 <= i < |cs|
        ensures SameCandidate(r[i], cs[i])
        ensures r[i].tier == Long <==> LongAtOrAfter(cs, i)
        ensures !LongAtOrAfter(cs, i) ==> r[i] == cs[i]
      {
        assert r[i] == rest[i - 1] && cs[i] == tail[i - 1];
        LongAtOrAfterTail(cs, i);
      }
    }
  }

  /** Two results that satisfy the characterization are equal. */
  lemma CharacterizationUnique(cs: seq<Candidate>, a: seq<Candidate>, b: seq<Candidate>)
    requires SameExceptTier(cs, a) && SameExceptTier(cs, b)
    requires forall i :: 0 <= i < |cs| ==> (a[i].tier == Long <==> LongAtOrAfter(cs, i))
    requires forall i :: 0 <= i < |cs| ==> (b[i].tier == Long <==> LongAtOrAfter(cs, i))
    requires forall i :: 0 <= i < |cs| && !LongAtOrAfter(cs, i) ==> a[i] == cs[i] && b[i] == cs[i]
    ensures a == b
  {
    forall i | 0 <= i < |cs|
      ensures a[i] == b[i]
    {
      if LongAtOrAfter(cs, i) {
        assert a[i].tier == b[i].tier;
      }
    }
  }

  /** The single-scan normalizer agrees with the recursive reference on every input. */
  lemma {:induction false} NormalizeMatchesReference(cs: seq<Candidate>)
    ensures Normalize(cs) == NormalizeFromBack(cs)
  {
    FromBackCharacterized(cs);
    CharacterizationUnique(cs, Normalize(cs), NormalizeFromBack(cs));
  }

  /** On well-formed input, a wire TTL is "1h" exactly when the decoded tier is long. */
  lemma LongLiteralIff(cs: seq<Candidate>)
    ensures forall j :: 0 <= j < |cs| ==> (EncodeAll(cs)[j].ttl == LongLiteral <==> cs[j].tier == Long)
  {
    forall j | 0 <= j < |cs|
      ensures EncodeAll(cs)[j].ttl == LongLiteral <==> cs[j].tier == Long
    {
      ParseLiteral(cs[j].tier);
    }
  }

  /** The wire-level view of `LongAtOrAfter`. */
  predicate LongLiteralAtOrAfter(ws: seq<WireCandidate>, i: int) {
    exists j :: i <= j < |ws| && 0 <= j && ws[j].ttl == LongLiteral
  }

  /** A long candidate sits at or after `i` iff a "1h" sits there on the wire. */
  lemma LongAtOrAfterWire(cs: seq<Candidate>, i: int)
    ensures LongAtOrAfter(cs, i) <==> LongLiteralAtOrAfter(EncodeAll(cs), i)
  {
    var ws := EncodeAll(cs);
    LongLiteralIff(cs);
    if LongAtOrAfter(cs, i) {
      var k :| i <= k < |cs| && 0 <= k && cs[k].tier == Long;
      assert ws[k].ttl == LongLiteral;
    }
    if LongLiteralAtOrAfter(ws, i) {
      var k :| i <= k < |ws| && 0 <= k && ws[k].ttl == LongLiteral;
      assert cs[k].tier == Long;
    }
  }

  /** `upgradeTTLHierarchy` on the repository's records, TTLs as wire
      literals. A TTL other than "5m" or "1h" is refused. On success a
      candidate's TTL is "1h" exactly when it or a later candidate had "1h",
      and every other candidate comes back as it was. */
  function UpgradeTtlHierarchy(ws: seq<WireCandidate>): (r: Option<seq<WireCandidate>>)
    ensures r.Some? <==> WellFormed(ws)
    ensures r.Some? ==> SameExceptTtl(ws, r.value) && WellFormed(r.value)
    ensures r.Some? ==> forall i :: 0 <= i < |ws| ==>
              (r.value[i].ttl == LongLiteral <==> LongLiteralAtOrAfter(ws, i))
    ensures r.Some? ==> forall i :: 0 <= i < |ws| && r.value[i].ttl != LongLiteral ==> r.value[i] == ws[i]
  {
    match DecodeAll(ws)
    case None => None
    case Some(cs) =>
      var n := Normalize(cs);
      var out := EncodeAll(n);
      LongLiteralIff(n);
      forall i | 0 <= i < |ws|
        ensures LongAtOrAfter(cs, i) <==> LongLiteralAtOrAfter(ws, i)
      {
        LongAtOrAfterWire(cs, i);
      }
      Some(out)
  }
}
