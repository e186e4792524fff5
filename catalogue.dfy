/** The constant catalogue of the six monsters a player can choose from. */
module Catalogue {
  import opened Types

  const Monsters: seq<Monster> := [
    Monster("gigazaur", "Gigazaur", "\U{1F996}", "#2ecc71"),
    Monster("the-king", "The King", "\U{1F981}", "#9b59b6"),
    Monster("meka-dragon", "Meka Dragon", "\U{1F409}", "#e74c3c"),
    Monster("kraken", "Kraken", "\U{1F419}", "#3498db"),
    Monster("cyber-bunny", "Cyber Bunny", "\U{1F430}", "#ff69b4"),
    Monster("alienoid", "Alienoid", "\U{1F47D}", "#1abc9c")
  ]

  /** No two catalogue entries share an id. */
  predicate DistinctMonsterIds(ms: seq<Monster>)
  {
    forall i, j :: 0 <= i < j < |ms| ==> ms[i].id != ms[j].id
  }

  /** `m => !taken.includes(m.id)` */
  function NotTakenIn(taken: seq<string>): Monster -> bool { (m: Monster) => m.id !in taken }

  /** `m => taken.includes(m.id)` */
  function TakenIn(taken: seq<string>): Monster -> bool { (m: Monster) => m.id in taken }

  lemma CatalogueIdsDistinct()
    ensures |Monsters| == 6
    ensures DistinctMonsterIds(Monsters)
  {
  }
}
