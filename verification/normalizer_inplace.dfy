/** An in-place form of the normalizer over an array: one forward scan finds
    the last long candidate, one loop raises the prefix. */
module NormalizerInPlace {
  import opened Tiers
  import opened Candidates
  import opened Normalizer

  /** One forward scan for the index of the last long candidate (-1 if none). */
  method FindLastLong(cs: seq<Candidate>) returns (l: int)
    ensures -1 <= l < |cs|
    ensures 0 <= l ==> cs[l].tier == Long
    ensures forall j :: l < j < |cs| ==> cs[j].tier == Short
    ensures l == LastLong(cs)
  {
    l := -1;
    var i := 0;
    while i < |cs|
      invariant 0 <= i <= |cs|
      invariant -1 <= l < i
      invariant 0 <= l ==> cs[l].tier == Long
      invariant forall j :: l < j < i ==> cs[j].tier == Short
    {
      if cs[i].tier == Long {
        l := i;
      }
      i := i + 1;
    }
    LastLongUnique(cs, l);
  }

  /** A sequence that is `cs` raised up to and including `LastLong(cs)`, and
      equal to `cs` after it, is `Normalize(cs)`. */
  lemma RaisedPrefixIsNormalized(cs: seq<Candidate>, s: seq<Candidate>)
    requires |s| == |cs|
    requires forall j :: 0 <= j <= LastLong(cs) ==> s[j] == cs[j].(tier := Long)
    requires forall j :: LastLong(cs) < j < |cs| ==> s[j] == cs[j]
    ensures s == Normalize(cs)
  {
  }

  /** Upgrades the array in place; afterwards it holds exactly `Normalize` of
      what it held before, so order and length are kept and only tiers change. */
  method UpgradeInPlace(a: array<Candidate>)
    modifies a
    ensures a[..] == Normalize(old(a[..]))
  {
    ghost var cs := a[..];
    var l := FindLastLong(a[..]);
    var i := 0;
    while i <= l
      invariant 0 <= i <= l + 1
      invariant forall j :: 0 <= j < i ==> a[j] == cs[j].(tier := Long)
      invariant forall j :: i <= j < a.Length ==> a[j] == cs[j]
    {
      a[i] := a[i].(tier := Long);
      i := i + 1;
    }
    RaisedPrefixIsNormalized(cs, a[..]);
  }
}
