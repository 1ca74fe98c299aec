/** The concrete scenarios the repository's tests pin down, stated on the
    wire-level records exactly as the tests write them. */
module Scenarios {
  import opened Optional
  import opened Tiers
  import opened Candidates
  import opened Normalizer

  /** A test record with ContentType "content". */
  function W(position: string, ttl: string, tokens: int): (w: WireCandidate) {
    WireCandidate(position, ttl, tokens, "content")
  }

  /** `expected` is what the hierarchy upgrade must make of `ws`: the same
      records, "1h" wherever a "1h" sits at or after the index, the original
      TTL elsewhere. */
  predicate Expected(ws: seq<WireCandidate>, expected: seq<WireCandidate>) {
    && |expected| == |ws|
    && forall i :: 0 <= i < |ws| ==>
         expected[i] == (if LongLiteralAtOrAfter(ws, i) then ws[i].(ttl := LongLiteral) else ws[i])
  }

  /** On well-formed input the upgrade produces exactly the expected records. */
  lemma UpgradeYieldsExpected(ws: seq<WireCandidate>, expected: seq<WireCandidate>)
    requires WellFormed(ws) && Expected(ws, expected)
    ensures UpgradeTtlHierarchy(ws) == Some(expected)
  {
    var r := UpgradeTtlHierarchy(ws).value;
    forall i | 0 <= i < |ws|
      ensures r[i] == expected[i]
    {
      if !LongLiteralAtOrAfter(ws, i) {
        ParseLiteral(Short);
        ParseLiteral(Long);
        assert r[i].ttl != LongLiteral;
      }
    }
    assert r == expected;
  }

  /** When the last "1h" sits at index `l`, the upgrade makes every record up
      to `l` "1h" and leaves the rest as they were. */
  lemma UpgradeUpTo(ws: seq<WireCandidate>, l: int, expected: seq<WireCandidate>)
    requires WellFormed(ws) && 0 <= l < |ws| && ws[l].ttl == LongLiteral
    requires forall j :: l < j < |ws| ==> ws[j].ttl == ShortLiteral
    requires |expected| == |ws|
    requires forall i :: 0 <= i <= l ==> expected[i] == ws[i].(ttl := LongLiteral)
    requires forall i :: l < i < |ws| ==> expected[i] == ws[i]
    ensures UpgradeTtlHierarchy(ws) == Some(expected)
  {
    ParseLiteral(Short);
    forall i | 0 <= i < |ws|
      ensures LongLiteralAtOrAfter(ws, i) <==> i <= l
    {
      if i <= l {
        assert ws[l].ttl == LongLiteral;
      }
    }
    UpgradeYieldsExpected(ws, expected);
  }

  /** Only short TTLs: nothing is upgraded. */
  lemma NoUpgradesNeeded()
    ensures UpgradeTtlHierarchy([W("message_0", "5m", 1000), W("message_1", "5m", 1500)])
         == Some([W("message_0", "5m", 1000), W("message_1", "5m", 1500)])
  {
    var ws := [W("message_0", "5m", 1000), W("message_1", "5m", 1500)];
    ParseLiteral(Short);
    assert WellFormed(ws);
    assert !LongLiteralAtOrAfter(ws, 0);
    UpgradeYieldsExpected(ws, ws);
  }

  /** One long TTL: everything before it is upgraded, the candidate after it stays short. */
  lemma UpgradePrecedingCandidates()
    ensures UpgradeTtlHierarchy([W("system", "5m", 1000), W("message_0", "5m", 1500),
                                 W("message_1", "1h", 1200), W("message_2", "5m", 800)])
         == Some([W("system", "1h", 1000), W("message_0", "1h", 1500),
                  W("message_1", "1h", 1200), W("message_2", "5m", 800)])
  {
    var ws := [W("system", "5m", 1000), W("message_0", "5m", 1500),
               W("message_1", "1h", 1200), W("message_2", "5m", 800)];
    assert WellFormed(ws);
    UpgradeUpTo(ws, 2, [W("system", "1h", 1000), W("message_0", "1h", 1500),
                        W("message_1", "1h", 1200), W("message_2", "5m", 800)]);
  }

  /** Two long TTLs: everything up to the last one is upgraded, including the
      short candidate between them; the tail stays short. */
  lemma MultipleLongTtls()
    ensures UpgradeTtlHierarchy([W("system", "5m", 1000), W("message_0", "1h", 1500),
                                 W("message_1", "5m", 1200), W("message_2", "1h", 800),
                                 W("message_3", "5m", 900)])
         == Some([W("system", "1h", 1000), W("message_0", "1h", 1500),
                  W("message_1", "1h", 1200), W("message_2", "1h", 800),
                  W("message_3", "5m", 900)])
  {
    var ws := [W("system", "5m", 1000), W("message_0", "1h", 1500),
               W("message_1", "5m", 1200), W("message_2", "1h", 800),
               W("message_3", "5m", 900)];
    assert WellFormed(ws);
    UpgradeUpTo(ws, 3, [W("system", "1h", 1000), W("message_0", "1h", 1500),
                        W("message_1", "1h", 1200), W("message_2", "1h", 800),
                        W("message_3", "5m", 900)]);
  }

  /** End to end: when the last breakpoint is long, every breakpoint ends up long. */
  lemma LastLongUpgradesAll(cs: seq<Candidate>)
    requires |cs| > 0 && cs[|cs| - 1].tier == Long
    ensures forall i :: 0 <= i < |cs| ==> Normalize(cs)[i].tier == Long
  {
    forall i | 0 <= i < |cs|
      ensures LongAtOrAfter(cs, i)
    {
      assert cs[|cs| - 1].tier == Long;
    }
  }
}
