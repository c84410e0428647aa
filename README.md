# Fantasy ACB roster calculator — a Dafny model

The application lets a user build a fantasy-basketball team for the Spanish
ACB league in eight draft rounds. Each round's slot is empty or holds one
player from a catalog of names, positions (base "B", alero "A", pívot "P")
and prices in euros. Every pick goes through `validar_seleccion`, which
applies three rules in a fixed order and reports the first that fails:

1. the player must not already sit in another round;
2. the other rounds must hold fewer players of the candidate's position than
   its quota (2 bases, 3 aleros, 3 pívots);
3. the spend, with the target round's current occupant replaced by the
   candidate, must not exceed 5.000.000 €.

An admitted pick is committed to its slot and clears the slot's error
message. A refused pick leaves the slots alone and records the reason. The
delete button empties a slot. A budget panel shows the amount spent, what
is left and the team grouped by position. Two pure string helpers sit beside
the engine: the text part of the catalog's price parser, and `format_euros`.

The model has five modules:

- `PriceText` (`price_text.dfy`): the rewrites that turn a price cell into
  the text handed to `float()`. These are strip, deleting `€` and spaces,
  the thousands/decimal separator rules and the `[^0-9.]` filter. Python's
  `str.strip`, `str.replace`, `str.count` and the regular expression are
  written out as functions on `string`.
- `Euros` (`euros.dfy`): `format_euros` on whole non-negative amounts, with
  `str(n)` written out as `DecimalDigits`.
- `Selection` (`selection.dfy`): the three rules as a function `Check` over
  a roster value (a `seq<Option<string>>`), the effect of a pick (`Decide`),
  the roster invariants and the lemmas that they are kept. It also has the
  grouping used by the team listing.
- `Session` (`session.dfy`): class `Roster`. It holds the session's eight
  slots and eight error entries in arrays that its methods update in place.
  `Validate` runs the source's three loops. `Propose` and `Clear` are the
  selector and the delete button. `Summary` is the budget panel's
  aggregation.
- `Scenarios` (`scenarios.dfy`): three concrete decisions on written-out
  rosters.

Modelling choices:

- Rounds are numbered 1 to 8 in the class's methods and in `Duplicate`
  reasons, as in the application. Slot `i` of a sequence is round `i + 1`.
- Python truthiness is kept. A slot holding `""` counts as empty everywhere
  (`Holds`). An empty candidate is admitted like the `"(vacío)"` entry.
- Unknown names keep the source's defaults. A candidate missing from the
  position table is taken for a base (`app.py:110`). An occupant missing
  from it counts towards no quota (`app.py:118`), yet it is listed with the
  bases (`app.py:188`). A missing price is 0 (`app.py:130-132`).
- The catalog is a pair of maps, name to `Position` and name to price. The
  error message under each selector becomes an `Option<Reason>`.
- The parser strips surrounding whitespace, then deletes every `€` and
  every ASCII space anywhere in the text.

## Model

| member | source | states |
|---|---|---|
| PriceText.IsSpace | app.py:39 | the whitespace set of `str.strip` includes space, tab and newline, and holds no digit, dot, comma or `€` |
| PriceText.Strip | app.py:39 | the result keeps the digits of the input in order, and the same number of every non-whitespace character |
| PriceText.StripShape | app.py:39 | the result is the input with a front and a back made only of whitespace cut off, and neither end of the result is whitespace |
| PriceText.StripLeading | app.py:39 | the result does not start with whitespace; digits and non-whitespace counts are kept |
| PriceText.StripLeadingShape | app.py:39 | the result is a suffix of the input, and everything before it is whitespace |
| PriceText.StripTrailing | app.py:39 | digits and non-whitespace counts are kept |
| PriceText.StripTrailingShape | app.py:39 | the result is a prefix of the input that does not end in whitespace, and everything after it is whitespace |
| PriceText.RemoveAll | app.py:40 | no occurrence of the character is left; every other character keeps its count; removing a non-digit keeps the digit sequence; text without the character is unchanged |
| PriceText.ReplaceAll | app.py:43 | no `c` is left; `d` gains exactly the count of `c`; other characters keep their counts; swapping non-digits keeps the digit sequence |
| PriceText.ResolveSeparators | app.py:42-48 | no comma is left after the separator rules; the digits are kept in order; text with no comma and at most one dot is unchanged |
| PriceText.KeepNumeral | app.py:50 | only digits and dots remain, with the input's dots and digit sequence; text already made of digits and dots is unchanged |
| PriceText.KeepNumeralConcat | app.py:50 | the filter works character by character: filtering a concatenation concatenates the filtered parts, so every kept dot stays between the same digits |
| PriceText.CommaAsPoint | app.py:42-50 | the reading of text with a comma is made of digits and dots, and leaves text of digits alone |
| PriceText.CommaRewrite | app.py:42-50 | deleting the dots, turning commas into dots and filtering gives exactly that reading: each digit kept in place, each comma a point, all else dropped |
| PriceText.DotsDroppedReading | app.py:45-50 | deleting the dots and filtering leaves exactly the digits in order |
| PriceText.CanonicalText | app.py:39-50 | the canonical text is made of digits and dots and holds the input's digits in order |
| PriceText.CanonicalForms | app.py:39-50 | with a comma anywhere the canonical text is the input's digits in place with each comma as the point; with no comma and several dots it is the digits alone; otherwise it is the input filtered to digits and dots |
| PriceText.Canonicalize | app.py:39-52 | a price that is not 0 outright comes as a non-empty numeral of digits and dots |
| PriceText.SeparatorRules | app.py:39-50 | the canonical text holds only digits and dots and the input's digits in order; with a comma anywhere it has as many dots as the input had commas; with several dots and no comma it has none; otherwise it keeps the input's dot count |
| PriceText.FewDotsUnchanged | app.py:42-49 | digits with at most one dot pass the separator rules unchanged |
| PriceText.ManyDotsRemoved | app.py:45-46 | digits with several dots lose all of them |
| PriceText.ZeroPriceIff | app.py:39-52 | the price is 0 outright exactly when the input has no digit, no comma and not exactly one dot |
| PriceText.EuroSuffixCleaned | app.py:39-40 | a numeral followed by " €" reaches the separator rules as the bare numeral |
| PriceText.ThousandsGroupsJoined | app.py:39-52 | text of the form `a.b.c €` with digit groups gives the numeral `abc`, as "1.180.000 €" gives "1180000" |
| PriceText.MixedSeparatorsRead | app.py:39-52 | text of the form `a.b,c €` with digit groups gives the numeral `ab.c`, as "1.180,50 €" gives "1180.50" |
| PriceText.DecimalCommaRead | app.py:42-48 | text of the form `a,b` with digit groups gives the numeral `a.b`, as "950,00" gives "950.00" |
| PriceText.RemoveDotsLeavesDigits | app.py:45-46 | deleting the dots of digits-and-dots text leaves exactly its digits |
| Euros.DecimalDigits | app.py:90 | `str(n)` is a non-empty string of digits that starts with 0 only for 0, and is exactly "0" for 0 |
| Euros.DigitsRoundTrip | app.py:89-90 | the decimal digits written for an amount read back as that amount |
| Euros.FormatEuros | app.py:88-90 | the rendering is non-empty, made of digits and dots, starts with a digit, starts with 0 only for 0, and is exactly "0" for 0 |
| Euros.FormatDropsToDigits | app.py:88-90 | deleting every dot from the rendering gives the amount's plain decimal digits |
| Euros.FormatRoundTrip | app.py:88-90 | the rendering with its dots deleted reads back as the amount |
| Euros.FormatGrouping | app.py:88-90 | the rendering is a group of 1 to 3 digits followed by groups of exactly 3, each after one dot |
| Euros.FormatDots | app.py:88-90 | no dot below 1.000, exactly one below 1.000.000, at least two from 1.000.000 on |
| Euros.DisplayedMillionsReadBack | app.py:39-52 | an amount of a million or more, shown as `format_euros(n) + " €"`, goes through the price rewrites back to its plain digits |
| Euros.DisplayedThousandsKeepDot | app.py:39-52 | below a million the shown text keeps its single dot, which the price rewrites pass on as a decimal point |
| Selection.Limit | app.py:111 | the quota is 2 for bases and 3 for aleros and pívots |
| Selection.PositionOf | app.py:110 | a known name has its catalog position; an unknown one is taken for a base |
| Selection.Price | app.py:130-132 | a known name has its catalog price; an unknown one costs 0 |
| Selection.IsNoChoice | app.py:101 | a candidate asks for nothing exactly when it is falsy (the empty name) or the "(vacío)" entry |
| Selection.Weight | app.py:117-118 | a slot counts at most once, and counts towards a position exactly when it holds a truthy name that the catalog places in that position |
| Selection.Cost | app.py:128-130 | an empty or falsy slot costs nothing; an occupant costs its price, 0 when unknown |
| Selection.Count | app.py:114-119 | a position counts at most one per slot |
| Selection.CountExcept | app.py:113-119 | the other slots count at most one each, so fewer than the roster's length when the target is among them |
| Selection.Total | app.py:126-130 | the total is at least the price of each occupant |
| Selection.Check | app.py:95-143 | an empty choice is admitted; a duplicate names a round in range, other than the target, that holds the candidate; a quota refusal names the candidate's position and its quota; a budget refusal carries a positive overage |
| Selection.FirstElsewhere | app.py:105-106 | the result is the lowest slot other than the target holding the name, and none means no other slot holds it |
| Selection.FirstElsewhereAt | app.py:105-107 | scanning the slots in order and stopping at the first other slot holding the name finds that lowest slot |
| Selection.CountUpdate | app.py:114-119 | changing one slot changes a position's count by the new occupant's weight minus the old one's |
| Selection.TotalUpdate | app.py:126-137 | changing one slot changes the total by the new occupant's price minus the old one's |
| Selection.CountExceptOthers | app.py:113-119 | counting over every slot but the target equals the full count less the target's weight, and the count of the roster with the target emptied |
| Selection.EmptyChoiceAdmitted | app.py:100-102 | an empty candidate or "(vacío)" is admitted whatever the roster |
| Selection.DuplicateRule | app.py:104-107 | the pick is refused as a duplicate of round i + 1 exactly when slot i is the lowest slot, other than the target, holding the name, whatever the quota and budget |
| Selection.QuotaRule | app.py:109-123 | with no duplicate, the pick is refused for quota exactly when the other slots count at least the limit of the candidate's position, and the reason names that position and limit |
| Selection.BudgetRule | app.py:125-141 | past the first two rules, the pick is admitted exactly when the other occupants' prices plus its own stay within 5.000.000; otherwise the reason carries the amount by which the spend exceeds it |
| Selection.EmptySound | app.py:76-80 | the all-empty roster has no duplicate, keeps every quota and spends nothing over the cap |
| Selection.ClearKeepsSound | app.py:279-282 | emptying a slot of a sound roster keeps it sound |
| Selection.AdmitKeepsSound | app.py:95-143 | committing a name the rules admit into a sound roster keeps it sound |
| Selection.Decide | app.py:258-268 | the pick is kept exactly when the slot already shows the candidate; "(vacío)" empties the slot; a name is committed only when the rules admit it; a refusal carries the reason the rules give |
| Selection.SlotsAfter | app.py:258-268 | only the target slot can change, and it takes what the pick commits; a pick that commits nothing leaves every slot |
| Selection.ErrorsAfter | app.py:258-268 | only the target's error can change: cleared when the pick commits, the reason when refused, untouched when the slot already showed the candidate |
| Selection.DecideKeepsSound | app.py:258-268 | every pick keeps a sound roster sound, and a pick that commits nothing leaves the slots as they were |
| Selection.ClearLikeEmptyName | app.py:263-266 | committing the empty name keeps a sound roster sound |
| Selection.Replay | app.py:258-282 | starting from the eight empty rounds of app.py:76-80 and applying each selector pick and delete in turn, the roster still has eight slots |
| Selection.ReplaySound | app.py:258-282 | after any sequence of picks and deletes from the empty roster, no name is in two slots, every position is within its quota and the total is within the budget |
| Selection.Grouped | app.py:184-189 | a position lists at most one name per slot, each non-empty and of that position (with the base default) |
| Selection.GroupedConcat | app.py:184-189 | the listing goes slot by slot: a roster made of two parts lists the first part's names, then the second's, so names appear in round order |
| Selection.GroupedMembers | app.py:184-189 | a name is listed under a position exactly when it occupies a slot and its position, with the base default, is that one |
| Selection.GroupedCount | app.py:184-189 | when every occupant is in the catalog, a position lists as many names as it counts towards its quota |
| Selection.GroupedWithinQuota | app.py:184-192 | in a sound roster whose occupants are all in the catalog, no position lists more names than its cap |
| Scenarios.GuardQuotaFull | app.py:109-123 | with bases in rounds 1 and 2, a third base is refused for round 3 with the base quota of 2 |
| Scenarios.OverBudgetOnEmptyRoster | app.py:125-141 | on the empty roster a player priced 6.000.000 is refused with an overage of 1.000.000 |
| Scenarios.AlreadyInRoundOne | app.py:104-107 | a player in round 1 is refused for round 2 as a duplicate of round 1 |
| Session.Roster.constructor | app.py:76-80 | every round starts empty and without an error, and the roster is sound |
| Session.Roster.Validate | app.py:95-143 | its three loops return exactly the decision of the three rules, admitted exactly when there is no reason, and write nothing |
| Session.Roster.Propose | app.py:258-268 | the slots and errors become those the pick's effect prescribes: unchanged when the selector shows the current occupant; emptied and cleared for "(vacío)"; the name committed and the error cleared when admitted; only the reason recorded when refused. The roster stays sound |
| Session.Roster.Clear | app.py:279-282 | only the round is emptied and its error cleared; the roster stays sound |
| Session.Roster.Summary | app.py:153-189 | the spend is the occupants' total price, what remains is the cap less the spend and is never negative for a sound roster, and each position lists the names the grouping gives |

## Left out

- The Streamlit interface: page configuration, columns, selectors, buttons, markdown and HTML, theme switching, `st.rerun` and the error summary (app.py:8, 163-305 apart from the state updates above). It is presentation only.
- The selector rollback at app.py:270. It writes widget state, not roster state; in the model a refused pick simply leaves the slot as it was.
- `load_data` and the pandas/Excel catalog (app.py:13-21, 64-68). The catalog is given as two maps, and their keys stand for the names after `str.strip`.
- The numeric branch of the price parser and everything after the emptiness test: `float()`, `round()`, the `> 10000` threshold and the `× 1_000_000` scaling (app.py:27-37, 54-62). This is binary floating point with round-half-even. The model stops at the canonical text (`Canonicalize`: `ZeroPrice`, or the numeral handed to `float()`).
- The budget bar's fraction `pct` (app.py:161). It is float division.
- `posicion_a_texto`, the label, colour and cap display maps, and the text of every message (app.py:107, 123, 141, 145-148, 191-202). A reason carries the round, the position and limit, or the overage instead of the message.
- Positions outside B, A and P. The position type is closed, so the `KeyError` at app.py:122 and the extra group `setdefault` makes at app.py:189 cannot arise.
- Euros.FormatEuros: amounts are non-negative integers. The call sites that can pass a negative amount take `abs` first (app.py:176), and `int(round(...))` of a float (app.py:89) is part of the floating-point arithmetic left out.
- Prices are non-negative integers. A negative price could only come from the numeric branch, which is left out.
- The price rewrites work on Unicode code points. The whitespace set of `str.strip` is written out; no normalisation is modelled.

