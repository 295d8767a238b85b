/** The per-player item store for the arson props (`paper_stack`,
    `lighter_fluid`): a dictionary from player id to a set of item names. */
module Inventory {

  type Inv = map<string, set<string>>

  const Empty: Inv := map[]

  const PaperStack := "paper_stack"
  const LighterFluid := "lighter_fluid"

  predicate HasItem(inv: Inv, player: string, item: string) {
    player in inv && item in inv[player]
  }

  /** Adding creates the player's bag on first use; adding twice is adding once. */
  function AddItem(inv: Inv, player: string, item: string): (r: Inv)
    ensures forall p, i :: HasItem(r, p, i) <==> HasItem(inv, p, i) || (p == player && i == item)
    ensures r.Keys == inv.Keys + {player}
  {
    if player in inv then inv[player := inv[player] + {item}] else inv[player := {item}]
  }

  /** Removing reports whether the item was held; a player without a bag
      removes nothing and gets `false`. */
  function RemoveItem(inv: Inv, player: string, item: string): (r: (Inv, bool))
    ensures r.1 == HasItem(inv, player, item)
    ensures forall p, i :: HasItem(r.0, p, i) <==> HasItem(inv, p, i) && !(p == player && i == item)
    ensures r.0.Keys == inv.Keys
  {
    if player !in inv then (inv, false)
    else (inv[player := inv[player] - {item}], item in inv[player])
  }

  /** Round start clears every bag. */
  function Reset(inv: Inv): (r: Inv)
    ensures forall p, i :: !HasItem(r, p, i)
  {
    Empty
  }

  /** Adding then removing an item the player did not hold leaves what every
      player holds as it was. */
  lemma AddRemoveRestores(inv: Inv, player: string, item: string)
    requires !HasItem(inv, player, item)
    ensures var r := RemoveItem(AddItem(inv, player, item), player, item);
      r.1 && forall p, i :: HasItem(r.0, p, i) <==> HasItem(inv, p, i)
  {
  }

  /** A second removal of the same item fails. */
  lemma RemoveTwiceFails(inv: Inv, player: string, item: string)
    ensures !RemoveItem(RemoveItem(inv, player, item).0, player, item).1
  {
  }
}
