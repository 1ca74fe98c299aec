/** Cache retention tiers and their wire literals.

    The upstream provider knows exactly two cache lifetimes. A breakpoint's
    tier travels on the wire verbatim as "5m" (short) or "1h" (long); no other
    literal is valid.
 */
module Tiers {
  import opened Optional

  /** Retention tier of a cache breakpoint. */
  datatype Tier = Short | Long

  /** Wire literal of the short tier. */
  const ShortLiteral: string := "5m"

  /** Wire literal of the long tier. */
  const LongLiteral: string := "1h"

  /** True iff `s` is one of the two literals the provider accepts. */
  predicate IsLiteral(s: string) {
    s == ShortLiteral || s == LongLiteral
  }

  /** The wire form of a tier. */
  function Literal(t: Tier): (s: string)
    ensures IsLiteral(s)
    ensures s == LongLiteral <==> t == Long
  {
    match t
    case Short => ShortLiteral
    case Long => LongLiteral
  }

  /** Reads a wire literal back; anything but "5m" and "1h" is rejected. */
  function Parse(s: string): (r: Option<Tier>)
    ensures r.Some? <==> IsLiteral(s)
    ensures r.Some? ==> Literal(r.value) == s
  {
    if s == ShortLiteral then Some(Short)
    else if s == LongLiteral then Some(Long)
    else None
  }

  /** Parsing inverts printing: each literal names its own tier. */
  lemma ParseLiteral(t: Tier)
    ensures Parse(Literal(t)) == Some(t)
  {
  }

  /** `a` keeps a breakpoint cached at least as long as `b` does. */
  predicate AtLeast(a: Tier, b: Tier) {
    a == Long || b == Short
  }
}
