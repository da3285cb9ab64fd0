/**
 * Button records (the state a `CustomButton` holds) and their constructor.
 * What a click does lives in the Navigation module, which needs the registry.
 */
module Buttons {

  import opened Common

  /**
   * What a slot displays. Only the three materials the library itself picks
   * are named; any other is an opaque `Other`.
   */
  datatype Material = Arrow | Paper | Tnt | Other(id: string)

  /** The four built-in navigation buttons. */
  datatype Nav = Back | Forward | NewPage | DeletePage

  /**
   * Which `onClick` a button runs: one of the navigation subclasses, or a
   * caller-defined subclass, told apart by `id`.
   */
  datatype Kind = Navigation(nav: Nav) | Custom(id: nat)

  /** Slot index, displayed material and behaviour of a button. */
  datatype Button = Button(index: int, material: Material, kind: Kind)

  /** The material each navigation button is drawn with. */
  function NavMaterial(nav: Nav): Material
  {
    match nav
    case Back => Arrow
    case Forward => Arrow
    case NewPage => Paper
    case DeletePage => Tnt
  }

  function GetIndex(b: Button): int
  {
    b.index
  }

  function GetMaterial(b: Button): Material
  {
    b.material
  }

  /** The `CustomButton` constructor: a negative slot index is refused. */
  function NewButton(index: int, material: Material, kind: Kind): (r: Result<Button>)
    ensures r.Ok? <==> index >= 0
    ensures r.Err? ==> r.error == NegativeButtonIndex
    ensures r.Ok? ==> GetIndex(r.value) == index && GetMaterial(r.value) == material
    ensures r.Ok? ==> r.value.kind == kind
  {
    if index < 0 then Err(NegativeButtonIndex)
    else Ok(Button(index, material, kind))
  }
}
