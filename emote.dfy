/** The end-of-match emotes and which of them the base game ships (`Emote`, `EmoteUtil`). */
module Emote {
  import opened Wrappers

  datatype Emote = Dance | Point | MiddleFinger | Clap | Shy | Griddy | Twerk | Salute | Prisyadka

  /** The enum's underlying id. */
  function Id(e: Emote): (id: int)
    ensures 1 <= id <= 9
  {
    match e
    case Dance => 1
    case Point => 2
    case MiddleFinger => 3
    case Clap => 4
    case Shy => 5
    case Griddy => 6
    case Twerk => 7
    case Salute => 8
    case Prisyadka => 9
  }

  /** The emote an id names, if any: the inverse of `Id`. */
  function FromId(id: int): (r: Option<Emote>)
    ensures r.Some? <==> 1 <= id <= 9
  {
    if id == 1 then Some(Dance)
    else if id == 2 then Some(Point)
    else if id == 3 then Some(MiddleFinger)
    else if id == 4 then Some(Clap)
    else if id == 5 then Some(Shy)
    else if id == 6 then Some(Griddy)
    else if id == 7 then Some(Twerk)
    else if id == 8 then Some(Salute)
    else if id == 9 then Some(Prisyadka)
    else None
  }

  /** The ids are exactly the consecutive integers 1..9, one per emote. */
  lemma IdsAreOneToNine(e: Emote, id: int)
    ensures FromId(Id(e)) == Some(e)
    ensures FromId(id).Some? ==> Id(FromId(id).value) == id
  {
  }

  const DANCE: int := Id(Dance)

  /** `EmoteUtil.IsVanilla`: the emote exists in the unmodded game. */
  predicate IsVanilla(id: int) {
    id == Id(Dance) || id == Id(Point)
  }

  /** Dance and Point are the vanilla emotes; every other emote needs the BetterEmotes mod. */
  lemma VanillaEmotes(e: Emote)
    ensures IsVanilla(Id(e)) <==> e == Dance || e == Point
    ensures IsVanilla(1) && IsVanilla(2)
    ensures forall id :: 3 <= id <= 9 ==> !IsVanilla(id)
  {
  }
}
