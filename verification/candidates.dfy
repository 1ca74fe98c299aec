/** Cache candidates: the ordered breakpoints the normalizer works on.

    `WireCandidate` holds the four fields of the repository's `CacheCandidate`
    that its tests set, with the TTL as the wire literal string; `Candidate`
    is the same record with the TTL read as a `Tier`. Order is meaningful: index i is the
    i-th breakpoint in wire order.
 */
module Candidates {
  import opened Optional
  import opened Tiers

  /** A breakpoint with its tier decoded. */
  datatype Candidate = Candidate(position: string, tier: Tier, tokens: int, contentType: string)

  /** A breakpoint with its TTL as a wire literal. */
  datatype WireCandidate = WireCandidate(position: string, ttl: string, tokens: int, contentType: string)

  /** True iff every TTL in `ws` is one of the two valid literals. */
  predicate WellFormed(ws: seq<WireCandidate>) {
    forall i :: 0 <= i < |ws| ==> IsLiteral(ws[i].ttl)
  }

  /** `a` and `b` are the same breakpoint, their tiers aside. */
  predicate SameCandidate(a: Candidate, b: Candidate) {
    a.position == b.position && a.tokens == b.tokens && a.contentType == b.contentType
  }

  /** `a` and `b` hold the same breakpoints in the same order; only tiers may differ. */
  predicate SameExceptTier(a: seq<Candidate>, b: seq<Candidate>) {
    |a| == |b| && forall i :: 0 <= i < |a| ==> SameCandidate(a[i], b[i])
  }

  /** Wire-level counterpart of `SameExceptTier`: only TTLs may differ. */
  predicate SameExceptTtl(a: seq<WireCandidate>, b: seq<WireCandidate>) {
    && |a| == |b|
    && forall i :: 0 <= i < |a| ==>
         && a[i].position == b[i].position
         && a[i].tokens == b[i].tokens
         && a[i].contentType == b[i].contentType
  }

  /** The record carrying a candidate's tier as its wire literal. */
  function ToWire(c: Candidate): (w: WireCandidate)
    ensures Parse(w.ttl) == Some(c.tier)
    ensures w.position == c.position && w.tokens == c.tokens && w.contentType == c.contentType
  {
    ParseLiteral(c.tier);
    WireCandidate(c.position, Literal(c.tier), c.tokens, c.contentType)
  }

  /** Reads a record's TTL; fails iff it is not one of the two literals. */
  function FromWire(w: WireCandidate): (r: Option<Candidate>)
    ensures r.Some? <==> IsLiteral(w.ttl)
    ensures r.Some? ==> ToWire(r.value) == w
  {
    match Parse(w.ttl)
    case None => None
    case Some(t) => Some(Candidate(w.position, t, w.tokens, w.contentType))
  }

  /** The wire form of a whole candidate sequence, element by element. */
  function EncodeAll(cs: seq<Candidate>): (ws: seq<WireCandidate>)
    ensures |ws| == |cs| && WellFormed(ws)
    ensures forall i :: 0 <= i < |cs| ==> ws[i] == ToWire(cs[i])
  {
    seq(|cs|, i requires 0 <= i < |cs| => ToWire(cs[i]))
  }

  /** A non-empty sequence is well-formed iff its head and its tail are. */
  lemma WellFormedCons(ws: seq<WireCandidate>)
    requires |ws| > 0
    ensures WellFormed(ws) <==> IsLiteral(ws[0].ttl) && WellFormed(ws[1..])
  {
    if IsLiteral(ws[0].ttl) && WellFormed(ws[1..]) {
      forall i | 1 <= i < |ws|
        ensures IsLiteral(ws[i].ttl)
      {
        assert ws[i] == ws[1..][i - 1];
      }
    }
    if WellFormed(ws) {
      forall k | 0 <= k < |ws[1..]|
        ensures IsLiteral(ws[1..][k].ttl)
      {
        assert ws[1..][k] == ws[k + 1];
      }
    }
  }

  /** Decodes a whole sequence; fails iff some TTL is not a valid literal. */
  function DecodeAll(ws: seq<WireCandidate>): (r: Option<seq<Candidate>>)
    ensures r.Some? <==> WellFormed(ws)
    ensures r.Some? ==> EncodeAll(r.value) == ws
  {
    if |ws| == 0 then Some([])
    else
      WellFormedCons(ws);
      match FromWire(ws[0])
      case None => None
      case Some(c) =>
        match DecodeAll(ws[1..])
        case None => None
        case Some(rest) =>
          assert EncodeAll([c] + rest) == ws by {
            assert EncodeAll([c] + rest) == [ws[0]] + ws[1..];
          }
          Some([c] + rest)
  }

  /** Decoding inverts encoding. */
  lemma {:induction false} DecodeEncode(cs: seq<Candidate>)
    ensures DecodeAll(EncodeAll(cs)) == Some(cs)
  {
    if |cs| > 0 {
      var ws := EncodeAll(cs);
      var tail := EncodeAll(cs[1..]);
      assert ws[1..] == tail;
      DecodeEncode(cs[1..]);
      assert FromWire(ws[0]) == Some(cs[0]);
      assert DecodeAll(ws) == Some([cs[0]] + cs[1..]);
      assert [cs[0]] + cs[1..] == cs;
    }
  }
}
