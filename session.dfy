/** The eight round slots of the session and the error shown under each
    selector, updated in place as picks are proposed and deleted. */
module Session {
  import opened Selection

  class Roster {
    const catalog: Catalog
    /** `slots[i]` is round `i + 1`: nothing, or the chosen name. */
    const slots: array<Option<string>>
    /** `errors[i]` is why the last pick for round `i + 1` was refused, if it was. */
    const errors: array<Option<Reason>>

    ghost predicate Valid()
      reads slots
    {
      slots.Length == Rounds && errors.Length == Rounds && Sound(slots[..], catalog)
    }

    /** Every round starts empty and without an error. */
    constructor (catalog: Catalog)
      ensures Valid() && this.catalog == catalog
      ensures fresh(slots) && fresh(errors)
      ensures slots[..] == seq(Rounds, _ => None)
      ensures errors[..] == seq(Rounds, _ => None)
    {
      this.catalog := catalog;
      slots := new Option<string>[Rounds](_ => None);
      errors := new Option<Reason>[Rounds](_ => None);
      new;
      assert slots[..] == seq(Rounds, _ => None);
      assert errors[..] == seq(Rounds, _ => None);
      EmptySound(Rounds, catalog);
    }

    /** Whether `candidate` may go into round `round`, and if not why; the
        slots are only read. */
    method Validate(candidate: string, round: nat) returns (ok: bool, reason: Option<Reason>)
      requires slots.Length == Rounds && 1 <= round <= Rounds
      ensures reason == Check(slots[..], catalog, candidate, round - 1)
      ensures ok <==> reason == None
    {
      var t := round - 1;
      if IsNoChoice(candidate) {
        return true, None;
      }

      // The name must not sit in another round.
      var i := 0;
      while i < Rounds
        invariant 0 <= i <= Rounds
        invariant FirstElsewhere(slots[..i], candidate, t) == None
      {
        assert slots[..i + 1][..i] == slots[..i];
        if i != t && slots[i] == Some(candidate) {
          FirstElsewhereAt(slots[..], candidate, t, i);
          return false, Some(Duplicate(i + 1));
        }
        i := i + 1;
      }
      assert slots[..Rounds] == slots[..];

      // The other rounds must leave room in the candidate's position.
      var pos := PositionOf(catalog, candidate);
      var count := 0;
      i := 0;
      while i < Rounds
        invariant 0 <= i <= Rounds
        invariant count == CountExcept(slots[..i], catalog, pos, t)
      {
        assert slots[..i + 1][..i] == slots[..i];
        if i != t {
          var existing := slots[i];
          if Holds(existing) && existing.value in catalog.position && catalog.position[existing.value] == pos {
            count := count + 1;
          }
        }
        i := i + 1;
      }
      if count >= Limit(pos) {
        return false, Some(Quota(pos, Limit(pos)));
      }

      // The spend, with the round's current occupant replaced, must fit the budget.
      var total: int := 0;
      i := 0;
      while i < Rounds
        invariant 0 <= i <= Rounds
        invariant total == Total(slots[..i], catalog)
      {
        assert slots[..i + 1][..i] == slots[..i];
        if Holds(slots[i]) {
          total := total + Price(catalog, slots[i].value);
        }
        i := i + 1;
      }
      var price := Price(catalog, candidate);
      if Holds(slots[t]) {
        total := total - Price(catalog, slots[t].value);
      }
      if total + price > BudgetCap {
        return false, Some(Budget(total + price - BudgetCap));
      }
      return true, None;
    }

    /** Choosing `candidate` in the selector of round `round`. */
    method Propose(candidate: string, round: nat)
      requires Valid() && 1 <= round <= Rounds
      modifies slots, errors
      ensures Valid()
      ensures var e := Decide(old(slots[..]), catalog, candidate, round - 1);
        && slots[..] == SlotsAfter(old(slots[..]), e, round - 1)
        && errors[..] == ErrorsAfter(old(errors[..]), e, round - 1)
    {
      var t := round - 1;
      DecideKeepsSound(slots[..], catalog, candidate, t);
      var current := slots[t];
      if Some(candidate) != current {
        if candidate == NoChoice {
          slots[t] := None;
          errors[t] := None;
        } else {
          var ok, reason := Validate(candidate, round);
          if ok {
            slots[t] := Some(candidate);
            errors[t] := None;
          } else {
            errors[t] := reason;
          }
        }
      }
    }

    /** The delete button of round `round`. */
    method Clear(round: nat)
      requires Valid() && 1 <= round <= Rounds
      modifies slots, errors
      ensures Valid()
      ensures slots[..] == old(slots[..])[round - 1 := None]
      ensures errors[..] == old(errors[..])[round - 1 := None]
    {
      ClearKeepsSound(slots[..], catalog, round - 1);
      slots[round - 1] := None;
      errors[round - 1] := None;
    }

    /** The budget panel: the amount spent, what is left, and the team listed
        by position. */
    method Summary() returns (spent: nat, remaining: int, grouped: map<Position, seq<string>>)
      requires slots.Length == Rounds
      ensures spent == Total(slots[..], catalog) && remaining == BudgetCap - spent
      ensures Sound(slots[..], catalog) ==> remaining >= 0
      ensures forall p :: p in grouped && grouped[p] == Grouped(slots[..], catalog, p)
    {
      spent := 0;
      var i := 0;
      while i < Rounds
        invariant 0 <= i <= Rounds
        invariant spent == Total(slots[..i], catalog)
      {
        assert slots[..i + 1][..i] == slots[..i];
        if Holds(slots[i]) {
          spent := spent + Price(catalog, slots[i].value);
        }
        i := i + 1;
      }
      assert slots[..Rounds] == slots[..];
      remaining := BudgetCap - spent;

      grouped := map[Guard := [], Forward := [], Center := []];
      i := 0;
      forall p: Position ensures p in grouped && grouped[p] == Grouped(slots[..0], catalog, p) {
        assert slots[..0] == [];
        match p
        case Guard =>
        case Forward =>
        case Center =>
      }
      while i < Rounds
        invariant 0 <= i <= Rounds
        invariant forall p :: p in grouped && grouped[p] == Grouped(slots[..i], catalog, p)
      {
        assert slots[..i + 1][..i] == slots[..i];
        var occupant := slots[i];
        if Holds(occupant) {
          var pos := PositionOf(catalog, occupant.value);
          grouped := grouped[pos := grouped[pos] + [occupant.value]];
        }
        i := i + 1;
      }
      assert slots[..Rounds] == slots[..];
    }
  }
}
