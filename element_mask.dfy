/** ElementMask: one bit per terrain element, so that "is this tile one of the
    allowed elements" is a single AND. */
module ElementMask {
  import opened Grid

  type Mask = bv8

  const None: Mask := 0
  const Stone: Mask := 1
  const Water: Mask := 2
  const Vine: Mask := 4
  const Fire: Mask := 8
  const Lightning: Mask := 16
  const Any: Mask := Stone | Water | Vine | Fire | Lightning

  /** m has exactly one bit set. */
  predicate SingleBit(m: Mask)
  {
    m != None && m & (m - 1) == None
  }

  /** True for the elements that own a bit. */
  predicate IsMaskedElement(e: ElementType)
  {
    !e.OtherElement?
  }

  /** Membership test used by every search: the colour of e is allowed by mask. */
  predicate Allows(mask: Mask, e: ElementType)
  {
    MapColor(e) & mask != None
  }

  /** MapColor sends each of the five elements to its own bit and every other
      element to None. */
  function MapColor(e: ElementType): (m: Mask)
    ensures m & Any == m
    ensures m == None || SingleBit(m)
    ensures m != None <==> IsMaskedElement(e)
  {
    match e
    case Fire => Fire
    case Lightning => Lightning
    case Stone => Stone
    case Vine => Vine
    case Water => Water
    case OtherElement(_) => None
  }

  /** The five element bits are distinct single bits and Any is their union. */
  lemma MasksAreSingleBits()
    ensures SingleBit(Stone) && SingleBit(Water) && SingleBit(Vine)
    ensures SingleBit(Fire) && SingleBit(Lightning)
    ensures Stone & Water == Stone & Vine == Stone & Fire == Stone & Lightning == None
    ensures Water & Vine == Water & Fire == Water & Lightning == None
    ensures Vine & Fire == Vine & Lightning == Fire & Lightning == None
    ensures Any == 31
  {
  }

  /** None allows nothing; Any allows exactly the five masked elements. */
  lemma NoneAndAny(e: ElementType)
    ensures !Allows(None, e)
    ensures Allows(Any, e) <==> IsMaskedElement(e)
  {
  }

  /** Two elements with a bit share it only if they are the same element. */
  lemma MapColorInjective(a: ElementType, b: ElementType)
    requires IsMaskedElement(a) && IsMaskedElement(b)
    ensures MapColor(a) == MapColor(b) <==> a == b
  {
  }

  /** A single-element mask allows exactly that element. */
  lemma AllowsOwnColor(a: ElementType, b: ElementType)
    requires IsMaskedElement(a)
    ensures Allows(MapColor(a), b) <==> a == b
  {
  }

  /** The colours a walker of element `element` may cross: its own, Stone, and
      Water when allowed. Both engines build this mask the same way. */
  function TransitColor(element: ElementType, allowWaterType: bool): (m: Mask)
    ensures forall e :: Allows(m, e) <==>
      IsMaskedElement(e) && (e == element || e == ElementType.Stone || (allowWaterType && e == ElementType.Water))
  {
    var m := MapColor(element) | Stone;
    if allowWaterType then m | Water else m
  }
}
