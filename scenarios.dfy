/** Three concrete admission decisions, with the rosters written out. */
module Scenarios {
  import opened Selection

  lemma {:induction false} CountPrefixNone(s: seq<Option<string>>, cat: Catalog, p: Position, k: nat)
    requires k <= |s| && forall i :: k <= i < |s| ==> s[i] == None
    ensures Count(s, cat, p) == Count(s[..k], cat, p)
  {
    if |s| > k {
      assert s[..|s| - 1][..k] == s[..k];
      CountPrefixNone(s[..|s| - 1], cat, p, k);
    } else {
      assert s[..k] == s;
    }
  }

  /** Two guards in rounds 1 and 2 leave no room for a third in round 3. */
  lemma GuardQuotaFull(alice: string, bob: string, carol: string)
    requires alice != bob && bob != carol && alice != carol
    requires !IsNoChoice(alice) && !IsNoChoice(bob) && !IsNoChoice(carol)
    ensures var cat := Catalog(map[alice := Guard, bob := Guard, carol := Guard],
                               map[alice := 1_000_000, bob := 1_000_000, carol := 1_000_000]);
      Check([Some(alice), Some(bob), None, None, None, None, None, None], cat, carol, 2) == Some(Quota(Guard, 2))
  {
    var cat := Catalog(map[alice := Guard, bob := Guard, carol := Guard],
                       map[alice := 1_000_000, bob := 1_000_000, carol := 1_000_000]);
    var s := [Some(alice), Some(bob), None, None, None, None, None, None];
    QuotaRule(s, cat, carol, 2);
    assert s[2 := None] == s;
    assert cat.position[alice] == Guard && cat.position[bob] == Guard;
    assert Count(s[..2], cat, Guard) == 2 by {
      var one := s[..2][..1];
      assert one == [Some(alice)] && one[..0] == [];
      assert Weight(Some(alice), cat, Guard) == 1 && Weight(Some(bob), cat, Guard) == 1;
      assert Count(one, cat, Guard) == 1;
    }
    CountPrefixNone(s, cat, Guard, 2);
  }

  /** A player priced 6.000.000 overshoots an empty roster's budget by 1.000.000. */
  lemma OverBudgetOnEmptyRoster(star: string)
    requires !IsNoChoice(star)
    ensures var cat := Catalog(map[star := Center], map[star := 6_000_000]);
      Check(seq(Rounds, _ => None), cat, star, 0) == Some(Budget(1_000_000))
  {
    var cat := Catalog(map[star := Center], map[star := 6_000_000]);
    var s: seq<Option<string>> := seq(Rounds, _ => None);
    EmptyCounts(Rounds, cat, Center);
    CountExceptOthers(s, cat, Center, 0);
    assert Price(cat, star) == 6_000_000;
  }

  /** A player already in round 1 is refused for round 2, naming round 1. */
  lemma AlreadyInRoundOne(alice: string, cat: Catalog)
    requires !IsNoChoice(alice)
    ensures Check([Some(alice), None, None, None, None, None, None, None], cat, alice, 1) == Some(Duplicate(1))
  {
    DuplicateRule([Some(alice), None, None, None, None, None, None, None], cat, alice, 1, 0);
  }
}
