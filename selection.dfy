/** The three admission rules for a pick, and the roster invariants they keep.

    A roster is a sequence of slots, one per draft round; slot `i` here is
    round `i + 1` of the application. A slot holds nothing or a player name,
    and, as with the application's truthiness test, a slot holding the empty
    name is treated as unoccupied. */
module Selection {
  datatype Option<T> = None | Some(value: T)

  /** Base ("B"), alero ("A") and pívot ("P"). */
  datatype Position = Guard | Forward | Center

  const Rounds: nat := 8
  const BudgetCap: nat := 5_000_000
  /** The selector's "nothing chosen" entry. */
  const NoChoice: string := "(vacío)"

  /** Players of each position a roster may hold. */
  function Limit(p: Position): (r: nat)
    ensures r == 2 <==> p == Guard
    ensures p != Guard ==> r == 3
  {
    match p
    case Guard => 2
    case Forward => 3
    case Center => 3
  }

  /** The player table: position and price in euros of every known name. */
  datatype Catalog = Catalog(position: map<string, Position>, price: map<string, nat>)

  /** The position of a candidate; an unknown name is taken for a guard. */
  function PositionOf(cat: Catalog, name: string): (r: Position)
    ensures name in cat.position ==> r == cat.position[name]
    ensures name !in cat.position ==> r == Guard
  {
    if name in cat.position then cat.position[name] else Guard
  }

  /** The price of a name; an unknown name costs nothing. */
  function Price(cat: Catalog, name: string): (r: nat)
    ensures name in cat.price ==> r == cat.price[name]
    ensures name !in cat.price ==> r == 0
  {
    if name in cat.price then cat.price[name] else 0
  }

  predicate Holds(o: Option<string>)
  {
    o.Some? && o.value != ""
  }

  /** A pick that asks for nothing: an empty name or the "nothing chosen" entry. */
  predicate IsNoChoice(candidate: string): (r: bool)
    ensures r <==> !Holds(Some(candidate)) || candidate == NoChoice
  {
    candidate == "" || candidate == NoChoice
  }

  /** 1 when the slot counts towards position `p`: an occupant whose position
      is unknown counts towards none. */
  function Weight(o: Option<string>, cat: Catalog, p: Position): (r: nat)
    ensures r <= 1
    ensures r == 1 <==> Holds(o) && o.value in cat.position && PositionOf(cat, o.value) == p
  {
    if Holds(o) && o.value in cat.position && cat.position[o.value] == p then 1 else 0
  }

  /** What the occupant of a slot costs. */
  function Cost(o: Option<string>, cat: Catalog): (r: nat)
    ensures !Holds(o) ==> r == 0
    ensures Holds(o) ==> r == Price(cat, o.value)
  {
    if Holds(o) then Price(cat, o.value) else 0
  }

  /** Slots counting towards position `p`. */
  function Count(s: seq<Option<string>>, cat: Catalog, p: Position): (r: nat)
    ensures r <= |s|
  {
    if s == [] then 0 else Count(s[..|s| - 1], cat, p) + Weight(s[|s| - 1], cat, p)
  }

  /** Total price of the occupants. */
  function Total(s: seq<Option<string>>, cat: Catalog): (r: nat)
    ensures forall i :: 0 <= i < |s| ==> Cost(s[i], cat) <= r
  {
    if s == [] then 0
    else
      assert forall i :: 0 <= i < |s| - 1 ==> s[..|s| - 1][i] == s[i];
      Total(s[..|s| - 1], cat) + Cost(s[|s| - 1], cat)
  }

  /** Slots other than `t` counting towards position `p`. */
  function CountExcept(s: seq<Option<string>>, cat: Catalog, p: Position, t: nat): (r: nat)
    ensures r <= |s|
    ensures t < |s| ==> r < |s|
  {
    if s == [] then 0
    else CountExcept(s[..|s| - 1], cat, p, t) + (if |s| - 1 == t then 0 else Weight(s[|s| - 1], cat, p))
  }

  /** The lowest slot other than `t` that holds `name`, if any. */
  function FirstElsewhere(s: seq<Option<string>>, name: string, t: nat): (r: Option<nat>)
    ensures r.Some? ==> r.value < |s| && r.value != t && s[r.value] == Some(name)
    ensures r.Some? ==> forall j :: 0 <= j < r.value && j != t ==> s[j] != Some(name)
    ensures r.None? ==> forall j :: 0 <= j < |s| && j != t ==> s[j] != Some(name)
  {
    if s == [] then None
    else
      var r := FirstElsewhere(s[..|s| - 1], name, t);
      if r.Some? then r
      else if |s| - 1 != t && s[|s| - 1] == Some(name) then Some(|s| - 1)
      else None
  }

  /** Why a pick is refused: the name already sits in `round`; the position's
      quota `limit` is reached; or the budget would be exceeded by `overage`. */
  datatype Reason = Duplicate(round: nat) | Quota(pos: Position, limit: nat) | Budget(overage: nat)

  /** The admission decision for putting `candidate` into slot `t`: the rules
      are tried in order and the first that fails is reported. */
  function Check(s: seq<Option<string>>, cat: Catalog, candidate: string, t: nat): (r: Option<Reason>)
    requires t < |s|
    ensures IsNoChoice(candidate) ==> r == None
    ensures r.Some? && r.value.Duplicate? ==>
      1 <= r.value.round <= |s| && r.value.round - 1 != t && s[r.value.round - 1] == Some(candidate)
    ensures r.Some? && r.value.Quota? ==>
      r.value == Quota(PositionOf(cat, candidate), Limit(PositionOf(cat, candidate)))
    ensures r.Some? && r.value.Budget? ==> r.value.overage > 0
  {
    if IsNoChoice(candidate) then None
    else
      match FirstElsewhere(s, candidate, t)
      case Some(i) => Some(Duplicate(i + 1))
      case None =>
        var p := PositionOf(cat, candidate);
        if CountExcept(s, cat, p, t) >= Limit(p) then Some(Quota(p, Limit(p)))
        else
          var spend := Total(s, cat) - Cost(s[t], cat) + Price(cat, candidate);
          if spend > BudgetCap then Some(Budget(spend - BudgetCap)) else None
  }

  // ---------------------------------------------------------------------
  // Counting over a roster

  lemma {:induction false} CountUpdate(s: seq<Option<string>>, cat: Catalog, p: Position, k: nat, x: Option<string>)
    requires k < |s|
    ensures Count(s[k := x], cat, p) + Weight(s[k], cat, p) == Count(s, cat, p) + Weight(x, cat, p)
  {
    var n := |s| - 1;
    var u := s[k := x];
    assert u[..n] == if k == n then s[..n] else s[..n][k := x];
    if k < n {
      CountUpdate(s[..n], cat, p, k, x);
    }
  }

  lemma {:induction false} TotalUpdate(s: seq<Option<string>>, cat: Catalog, k: nat, x: Option<string>)
    requires k < |s|
    ensures Total(s[k := x], cat) + Cost(s[k], cat) == Total(s, cat) + Cost(x, cat)
  {
    var n := |s| - 1;
    var u := s[k := x];
    assert u[..n] == if k == n then s[..n] else s[..n][k := x];
    if k < n {
      TotalUpdate(s[..n], cat, k, x);
    }
  }

  /** Counting over the other slots is counting over the roster without slot `t`. */
  lemma {:induction false} CountExceptOthers(s: seq<Option<string>>, cat: Catalog, p: Position, t: nat)
    requires t < |s|
    ensures CountExcept(s, cat, p, t) + Weight(s[t], cat, p) == Count(s, cat, p)
    ensures CountExcept(s, cat, p, t) == Count(s[t := None], cat, p)
  {
    var n := |s| - 1;
    if t < n {
      CountExceptOthers(s[..n], cat, p, t);
    } else {
      CountExceptBelow(s[..n], cat, p, t);
    }
    CountUpdate(s, cat, p, t, None);
  }

  /** Before slot `t`, the two counts agree. */
  lemma {:induction false} CountExceptBelow(s: seq<Option<string>>, cat: Catalog, p: Position, t: nat)
    requires |s| <= t
    ensures CountExcept(s, cat, p, t) == Count(s, cat, p)
  {
    if s != [] {
      CountExceptBelow(s[..|s| - 1], cat, p, t);
    }
  }

  // ---------------------------------------------------------------------
  // The rules, stated on the roster

  /** Asking for nothing is admitted whatever the roster. */
  lemma EmptyChoiceAdmitted(s: seq<Option<string>>, cat: Catalog, candidate: string, t: nat)
    requires t < |s| && IsNoChoice(candidate)
    ensures Check(s, cat, candidate, t) == None
  {
  }

  /** The pick is refused as a duplicate of round `i + 1` exactly when slot
      `i`, not the target, is the lowest other slot holding the name; this
      comes before the other two rules. */
  lemma DuplicateRule(s: seq<Option<string>>, cat: Catalog, candidate: string, t: nat, i: nat)
    requires t < |s| && !IsNoChoice(candidate)
    ensures Check(s, cat, candidate, t) == Some(Duplicate(i + 1)) <==>
      i < |s| && i != t && s[i] == Some(candidate) &&
      forall j :: 0 <= j < i && j != t ==> s[j] != Some(candidate)
  {
    var r := FirstElsewhere(s, candidate, t);
    if r.Some? && r.value < i {
      assert s[r.value] == Some(candidate);
    }
  }

  /** Scanning the slots in order finds the lowest other slot holding the name. */
  lemma FirstElsewhereAt(s: seq<Option<string>>, name: string, t: nat, i: nat)
    requires i < |s| && i != t && s[i] == Some(name)
    requires FirstElsewhere(s[..i], name, t) == None
    ensures FirstElsewhere(s, name, t) == Some(i)
  {
    forall j | 0 <= j < i && j != t ensures s[j] != Some(name) {
      assert s[..i][j] == s[j];
    }
  }

  /** With no duplicate, the pick is refused for its position's quota exactly
      when the other slots already hold that many players of the position. */
  lemma QuotaRule(s: seq<Option<string>>, cat: Catalog, candidate: string, t: nat)
    requires t < |s| && !IsNoChoice(candidate)
    requires forall j :: 0 <= j < |s| && j != t ==> s[j] != Some(candidate)
    ensures var p := PositionOf(cat, candidate);
      var r := Check(s, cat, candidate, t);
      && (r.Some? && r.value.Quota? <==> Count(s[t := None], cat, p) >= Limit(p))
      && (r.Some? && r.value.Quota? ==> r.value == Quota(p, Limit(p)))
  {
    CountExceptOthers(s, cat, PositionOf(cat, candidate), t);
    assert FirstElsewhere(s, candidate, t).None?;
  }

  /** Past the first two rules, the pick is refused exactly when the other
      occupants' prices plus its own exceed the cap, and the overage reported
      is by how much. */
  lemma BudgetRule(s: seq<Option<string>>, cat: Catalog, candidate: string, t: nat)
    requires t < |s| && !IsNoChoice(candidate)
    requires forall j :: 0 <= j < |s| && j != t ==> s[j] != Some(candidate)
    requires var p := PositionOf(cat, candidate); Count(s[t := None], cat, p) < Limit(p)
    ensures var spend := Total(s[t := None], cat) + Price(cat, candidate);
      && (Check(s, cat, candidate, t) == None <==> spend <= BudgetCap)
      && (spend > BudgetCap ==> Check(s, cat, candidate, t) == Some(Budget(spend - BudgetCap)))
  {
    CountExceptOthers(s, cat, PositionOf(cat, candidate), t);
    TotalUpdate(s, cat, t, None);
    assert FirstElsewhere(s, candidate, t).None?;
  }

  // ---------------------------------------------------------------------
  // Invariants of a roster built by admitted picks and clears

  /** No name sits in two slots. */
  predicate NoDuplicates(s: seq<Option<string>>)
  {
    forall i, j :: 0 <= i < j < |s| && Holds(s[i]) ==> s[i] != s[j]
  }

  predicate Sound(s: seq<Option<string>>, cat: Catalog)
  {
    && NoDuplicates(s)
    && (forall p :: Count(s, cat, p) <= Limit(p))
    && Total(s, cat) <= BudgetCap
  }

  lemma {:induction false} EmptyCounts(n: nat, cat: Catalog, p: Position)
    ensures Count(seq(n, _ => None), cat, p) == 0
    ensures Total(seq(n, _ => None), cat) == 0
  {
    if n > 0 {
      var s: seq<Option<string>> := seq(n, _ => None);
      assert s[..n - 1] == seq(n - 1, _ => None);
      EmptyCounts(n - 1, cat, p);
    }
  }

  /** The roster the application starts from is sound. */
  lemma EmptySound(n: nat, cat: Catalog)
    ensures Sound(seq(n, _ => None), cat)
  {
    var s: seq<Option<string>> := seq(n, _ => None);
    forall p: Position ensures Count(s, cat, p) == 0 {
      EmptyCounts(n, cat, p);
    }
    EmptyCounts(n, cat, Guard);
  }

  /** Emptying a slot keeps the roster sound. */
  lemma ClearKeepsSound(s: seq<Option<string>>, cat: Catalog, t: nat)
    requires t < |s| && Sound(s, cat)
    ensures Sound(s[t := None], cat)
  {
    forall p: Position ensures Count(s[t := None], cat, p) <= Count(s, cat, p) {
      CountUpdate(s, cat, p, t, None);
    }
    TotalUpdate(s, cat, t, None);
  }

  /** Committing an admitted name keeps the roster sound. */
  lemma AdmitKeepsSound(s: seq<Option<string>>, cat: Catalog, candidate: string, t: nat)
    requires t < |s| && Sound(s, cat)
    requires !IsNoChoice(candidate) && Check(s, cat, candidate, t) == None
    ensures Sound(s[t := Some(candidate)], cat)
  {
    var u := s[t := Some(candidate)];
    var p := PositionOf(cat, candidate);
    assert FirstElsewhere(s, candidate, t).None?;
    forall q: Position ensures Count(u, cat, q) <= Limit(q) {
      CountUpdate(s, cat, q, t, Some(candidate));
      CountExceptOthers(s, cat, q, t);
      if q != p {
        assert Weight(Some(candidate), cat, q) == 0;
      }
    }
    TotalUpdate(s, cat, t, Some(candidate));
    forall i, j | 0 <= i < j < |u| && Holds(u[i]) ensures u[i] != u[j] {
      if i != t && j != t {
        assert u[i] == s[i] && u[j] == s[j];
      }
    }
  }

  // ---------------------------------------------------------------------
  // Committing a pick

  /** What a pick does to its slot: nothing when the slot already shows it;
      empty the slot for the "nothing chosen" entry; commit an admitted name;
      or record why the name was refused. */
  datatype Effect = Keep | Put(slot: Option<string>) | Refuse(reason: Reason)

  function Decide(s: seq<Option<string>>, cat: Catalog, candidate: string, t: nat): (r: Effect)
    requires t < |s|
    ensures r.Keep? <==> s[t] == Some(candidate)
    ensures r.Put? ==> r.slot == if candidate == NoChoice then None else Some(candidate)
    ensures r.Put? && candidate != NoChoice ==> Check(s, cat, candidate, t) == None
    ensures r.Refuse? ==> candidate != NoChoice && Check(s, cat, candidate, t) == Some(r.reason)
  {
    if Some(candidate) == s[t] then Keep
    else if candidate == NoChoice then Put(None)
    else
      match Check(s, cat, candidate, t)
      case None => Put(Some(candidate))
      case Some(reason) => Refuse(reason)
  }

  function SlotsAfter(s: seq<Option<string>>, e: Effect, t: nat): (r: seq<Option<string>>)
    requires t < |s|
    ensures |r| == |s|
    ensures forall i :: 0 <= i < |s| && i != t ==> r[i] == s[i]
    ensures e.Put? ==> r[t] == e.slot
    ensures !e.Put? ==> r == s
  {
    if e.Put? then s[t := e.slot] else s
  }

  function ErrorsAfter(errors: seq<Option<Reason>>, e: Effect, t: nat): (r: seq<Option<Reason>>)
    requires t < |errors|
    ensures |r| == |errors|
    ensures forall i :: 0 <= i < |errors| && i != t ==> r[i] == errors[i]
    ensures e.Keep? ==> r == errors
    ensures e.Put? ==> r[t] == None
    ensures e.Refuse? ==> r[t] == Some(e.reason)
  {
    match e
    case Keep => errors
    case Put(_) => errors[t := None]
    case Refuse(reason) => errors[t := Some(reason)]
  }

  /** A pick keeps a sound roster sound, and a refused pick leaves it as it was. */
  lemma DecideKeepsSound(s: seq<Option<string>>, cat: Catalog, candidate: string, t: nat)
    requires t < |s| && Sound(s, cat)
    ensures Sound(SlotsAfter(s, Decide(s, cat, candidate, t), t), cat)
    ensures !Decide(s, cat, candidate, t).Put? ==> SlotsAfter(s, Decide(s, cat, candidate, t), t) == s
  {
    if Some(candidate) != s[t] {
      if candidate == NoChoice {
        ClearKeepsSound(s, cat, t);
      } else if Check(s, cat, candidate, t) == None {
        if candidate == "" {
          ClearLikeEmptyName(s, cat, t);
        } else {
          AdmitKeepsSound(s, cat, candidate, t);
        }
      }
    }
  }

  /** Putting the empty name in a slot is, for every count, emptying it. */
  lemma ClearLikeEmptyName(s: seq<Option<string>>, cat: Catalog, t: nat)
    requires t < |s| && Sound(s, cat)
    ensures Sound(s[t := Some("")], cat)
  {
    var u := s[t := Some("")];
    forall p: Position ensures Count(u, cat, p) <= Count(s, cat, p) {
      CountUpdate(s, cat, p, t, Some(""));
    }
    TotalUpdate(s, cat, t, Some(""));
    forall i, j | 0 <= i < j < |u| && Holds(u[i]) ensures u[i] != u[j] {
      if i != t && j != t {
        assert u[i] == s[i] && u[j] == s[j];
      }
    }
  }

  /** A user action on round `round` (1 to 8): choose a name in its selector,
      or press its delete button. */
  datatype Action = Pick(name: string, round: nat) | Delete(round: nat)

  predicate InRange(actions: seq<Action>)
  {
    forall k :: 0 <= k < |actions| ==> 1 <= actions[k].round <= Rounds
  }

  /** The slots after the actions, from the empty roster. */
  function Replay(cat: Catalog, actions: seq<Action>): (s: seq<Option<string>>)
    requires InRange(actions)
    ensures |s| == Rounds
  {
    if actions == [] then seq(Rounds, _ => None)
    else
      var before := Replay(cat, actions[..|actions| - 1]);
      match actions[|actions| - 1]
      case Pick(name, round) => SlotsAfter(before, Decide(before, cat, name, round - 1), round - 1)
      case Delete(round) => before[round - 1 := None]
  }

  /** Whatever the actions, the roster has no duplicate, keeps every quota
      and stays within the budget. */
  lemma {:induction false} ReplaySound(cat: Catalog, actions: seq<Action>)
    requires InRange(actions)
    ensures Sound(Replay(cat, actions), cat)
  {
    if actions == [] {
      EmptySound(Rounds, cat);
    } else {
      var init := actions[..|actions| - 1];
      assert InRange(init) by {
        forall k | 0 <= k < |init| ensures 1 <= init[k].round <= Rounds {
          assert init[k] == actions[k];
        }
      }
      ReplaySound(cat, init);
      var before := Replay(cat, init);
      match actions[|actions| - 1]
      case Pick(name, round) =>
        DecideKeepsSound(before, cat, name, round - 1);
      case Delete(round) =>
        ClearKeepsSound(before, cat, round - 1);
    }
  }

  // ---------------------------------------------------------------------
  // The team listing

  /** The occupants listed under position `p`, in round order (see
      `GroupedConcat`); an occupant of unknown position is listed with the
      guards. */
  function Grouped(s: seq<Option<string>>, cat: Catalog, p: Position): (r: seq<string>)
    ensures |r| <= |s|
    ensures forall i :: 0 <= i < |r| ==> r[i] != "" && PositionOf(cat, r[i]) == p
  {
    if s == [] then []
    else
      var last := s[|s| - 1];
      Grouped(s[..|s| - 1], cat, p)
        + (if Holds(last) && PositionOf(cat, last.value) == p then [last.value] else [])
  }

  /** A name is listed under `p` exactly when it occupies some slot and its
      position is `p`. */
  lemma {:induction false} GroupedMembers(s: seq<Option<string>>, cat: Catalog, p: Position, x: string)
    ensures x in Grouped(s, cat, p) <==>
      x != "" && PositionOf(cat, x) == p && Some(x) in s
  {
    if s != [] {
      var n := |s| - 1;
      GroupedMembers(s[..n], cat, p, x);
      assert s == s[..n] + [s[n]];
      assert Some(x) in s <==> Some(x) in s[..n] || s[n] == Some(x);
    }
  }

  /** When every occupant is in the catalog, each position lists as many
      names as it counts, so a sound roster lists at most its quota. */
  lemma {:induction false} GroupedCount(s: seq<Option<string>>, cat: Catalog, p: Position)
    requires forall i :: 0 <= i < |s| && Holds(s[i]) ==> s[i].value in cat.position
    ensures |Grouped(s, cat, p)| == Count(s, cat, p)
  {
    if s != [] {
      var n := |s| - 1;
      assert forall i :: 0 <= i < n ==> s[..n][i] == s[i];
      GroupedCount(s[..n], cat, p);
    }
  }

  /** The listing goes slot by slot: listing a roster made of two parts lists
      the first part's names, then the second's. */
  lemma {:induction false} GroupedConcat(a: seq<Option<string>>, b: seq<Option<string>>, cat: Catalog, p: Position)
    ensures Grouped(a + b, cat, p) == Grouped(a, cat, p) + Grouped(b, cat, p)
  {
    if b == [] {
      assert a + b == a;
    } else {
      var n := |b| - 1;
      assert (a + b)[..|a + b| - 1] == a + b[..n];
      assert (a + b)[|a + b| - 1] == b[n];
      GroupedConcat(a, b[..n], cat, p);
    }
  }

  lemma GroupedWithinQuota(s: seq<Option<string>>, cat: Catalog, p: Position)
    requires forall i :: 0 <= i < |s| && Holds(s[i]) ==> s[i].value in cat.position
    requires Sound(s, cat)
    ensures |Grouped(s, cat, p)| <= Limit(p)
  {
    GroupedCount(s, cat, p);
  }
}
