/**
 * The apartment class hierarchy: `Apt`, its subclass `SpecialApt` (a view
 * flag), and the two subclasses of `SpecialApt`, `GardenApt` (floor 0, no
 * view, a garden area) and `RoofApt` (always a view, a pool flag).  Every
 * field is set once by the constructor, so an apartment is a value.
 */
module Apartments {
  import opened Wrappers

  const SqmPrice := 20000
  const FloorPrice := 5000
  const ViewPrice := 600
  const RoofPrice := 40000
  const PoolPrice := 30000

  /**
   * One variant per class.  A garden apartment stores no floor and no view:
   * its constructor hands 0 and false to `SpecialApt`, and the getters below
   * return them.  A rooftop apartment stores no view: its constructor
   * hands true.
   */
  datatype Apartment =
    | Apt(floor: int, area: int)
    | SpecialApt(floor: int, area: int, hasView: bool)
    | GardenApt(area: int, gardenArea: int)
    | RoofApt(floor: int, area: int, hasPool: bool)

  /** The classes, as `type(x)` names them. */
  datatype Kind = AptKind | SpecialAptKind | GardenAptKind | RoofAptKind

  /** `type(a)`. */
  function KindOf(a: Apartment): Kind {
    match a
    case Apt(_, _) => AptKind
    case SpecialApt(_, _, _) => SpecialAptKind
    case GardenApt(_, _) => GardenAptKind
    case RoofApt(_, _, _) => RoofAptKind
  }

  /** The class name, as written in the source. */
  function KindName(k: Kind): string {
    match k
    case AptKind => "Apt"
    case SpecialAptKind => "SpecialApt"
    case GardenAptKind => "GardenApt"
    case RoofAptKind => "RoofApt"
  }

  /** Direct superclass. */
  function Base(k: Kind): Option<Kind> {
    match k
    case AptKind => None
    case SpecialAptKind => Some(AptKind)
    case GardenAptKind => Some(SpecialAptKind)
    case RoofAptKind => Some(SpecialAptKind)
  }

  /** `sub` is `sup` or inherits from it, following `Base`. */
  predicate IsSubclass(sub: Kind, sup: Kind)
    decreases Depth(sub)
  {
    sub == sup || (Base(sub).Some? && IsSubclass(Base(sub).value, sup))
  }

  function Depth(k: Kind): nat {
    match k
    case AptKind => 0
    case SpecialAptKind => 1
    case GardenAptKind => 2
    case RoofAptKind => 2
  }

  /** `isinstance(a, k)`. */
  predicate IsInstance(a: Apartment, k: Kind) {
    match k
    case AptKind => true
    case SpecialAptKind => !a.Apt?
    case GardenAptKind => a.GardenApt?
    case RoofAptKind => a.RoofApt?
  }

  /** `isinstance` holds exactly for the object's own class and its superclasses. */
  lemma IsInstanceMeaning(a: Apartment, k: Kind)
    ensures IsInstance(a, k) <==> IsSubclass(KindOf(a), k)
  {
  }

  // Getters.

  /** `get_floor`. */
  function Floor(a: Apartment): int {
    if a.GardenApt? then 0 else a.floor
  }

  /** `get_area`. */
  function Area(a: Apartment): int {
    a.area
  }

  /** `get_has_view`, defined on `SpecialApt` and its subclasses. */
  function HasView(a: Apartment): bool
    requires IsInstance(a, SpecialAptKind)
  {
    match a
    case SpecialApt(_, _, v) => v
    case GardenApt(_, _) => false
    case RoofApt(_, _, _) => true
  }

  /** `get_garden_area`. */
  function GardenArea(a: Apartment): int
    requires a.GardenApt?
  {
    a.gardenArea
  }

  /** `get_has_pool`. */
  function HasPool(a: Apartment): bool
    requires a.RoofApt?
  {
    a.hasPool
  }

  /** The getters hand back what each constructor was given. */
  lemma GettersReturnArguments(floor: int, area: int, flag: bool, garden: int)
    ensures Floor(Apt(floor, area)) == floor && Area(Apt(floor, area)) == area
    ensures Floor(SpecialApt(floor, area, flag)) == floor && Area(SpecialApt(floor, area, flag)) == area
    ensures HasView(SpecialApt(floor, area, flag)) == flag
    ensures Area(GardenApt(area, garden)) == area && GardenArea(GardenApt(area, garden)) == garden
    ensures Floor(RoofApt(floor, area, flag)) == floor && Area(RoofApt(floor, area, flag)) == area
    ensures HasPool(RoofApt(floor, area, flag)) == flag
  {
  }

  /** A garden apartment is on floor 0 and has no view, whatever it was built with. */
  lemma GardenAptFixed(area: int, garden: int)
    ensures Floor(GardenApt(area, garden)) == 0
    ensures !HasView(GardenApt(area, garden))
  {
  }

  /** A rooftop apartment always has a view. */
  lemma RoofAptHasView(floor: int, area: int, pool: bool)
    ensures HasView(RoofApt(floor, area, pool))
  {
  }

  // Prices: each class's `get_price`, calling its superclass's where the source does.

  /** `Apt.get_price`. */
  function AptPrice(a: Apartment): int {
    var floorSurcharge := if Floor(a) > 1 then Floor(a) * FloorPrice else 0;
    Area(a) * SqmPrice + floorSurcharge
  }

  /** `SpecialApt.get_price`. */
  function SpecialAptPrice(a: Apartment): int
    requires IsInstance(a, SpecialAptKind)
  {
    var viewSurcharge := if HasView(a) then Floor(a) * ViewPrice else 0;
    AptPrice(a) + viewSurcharge
  }

  /** `RoofApt.get_price`. */
  function RoofAptPrice(a: Apartment): int
    requires a.RoofApt?
  {
    var poolSurcharge := if HasPool(a) then PoolPrice else 0;
    SpecialAptPrice(a) + RoofPrice + poolSurcharge
  }

  /** `a.get_price()`: the most specific override; `GardenApt` has none. */
  function Price(a: Apartment): int {
    match a
    case Apt(_, _) => AptPrice(a)
    case SpecialApt(_, _, _) => SpecialAptPrice(a)
    case GardenApt(_, _) => SpecialAptPrice(a)
    case RoofApt(_, _, _) => RoofAptPrice(a)
  }

  /** The price of a plain apartment, written out. */
  lemma AptPriceFormula(floor: int, area: int)
    ensures Price(Apt(floor, area)) == area * 20000 + (if floor > 1 then floor * 5000 else 0)
  {
  }

  /** Exactly the floors up to 1 carry no floor surcharge. */
  lemma NoFloorSurchargeIffLow(floor: int, area: int)
    ensures Price(Apt(floor, area)) == area * SqmPrice <==> floor <= 1
  {
  }

  /** A special apartment costs the plain price plus the view surcharge. */
  lemma SpecialAptPriceFormula(floor: int, area: int, view: bool)
    ensures Price(SpecialApt(floor, area, view))
            == Price(Apt(floor, area)) + (if view then floor * ViewPrice else 0)
  {
  }

  /** Without a view, a special apartment costs what a plain one does. */
  lemma NoViewIsPlainPrice(floor: int, area: int)
    ensures Price(SpecialApt(floor, area, false)) == Price(Apt(floor, area))
  {
  }

  /** A garden apartment costs its area alone; the garden does not count. */
  lemma GardenAptPrice(area: int, garden: int, otherGarden: int)
    ensures Price(GardenApt(area, garden)) == area * SqmPrice
    ensures Price(GardenApt(area, garden)) == Price(GardenApt(area, otherGarden))
  {
  }

  /** A rooftop apartment adds the roof and pool surcharges to a special apartment with a view. */
  lemma RoofAptPriceFormula(floor: int, area: int, pool: bool)
    ensures Price(RoofApt(floor, area, pool))
            == Price(SpecialApt(floor, area, true)) + 40000 + (if pool then 30000 else 0)
  {
  }

  /** A pool adds exactly `PoolPrice`. */
  lemma PoolSurcharge(floor: int, area: int)
    ensures Price(RoofApt(floor, area, true)) == Price(RoofApt(floor, area, false)) + PoolPrice
  {
  }

  // Equality: each class's `__eq__`, and the `==` operator that calls them.

  /** Anything `==` can be given: an apartment, or some other object (an int, a string, `None`). */
  datatype PyValue = AptObject(apt: Apartment) | OtherObject

  /** What an `__eq__` method returns. */
  datatype EqOutcome = Answer(eq: bool) | NotImplemented

  /** `type(other) is type(self)`. */
  predicate SameType(self: Apartment, other: PyValue) {
    other.AptObject? && KindOf(other.apt) == KindOf(self)
  }

  /** `Apt.__eq__`, also reached through `super()` with `self` of a subclass. */
  function AptEq(self: Apartment, other: PyValue): EqOutcome {
    if !SameType(self, other) then NotImplemented
    else Answer((Floor(self), Area(self)) == (Floor(other.apt), Area(other.apt)))
  }

  /** `SpecialApt.__eq__`. */
  function SpecialAptEq(self: Apartment, other: PyValue): EqOutcome
    requires IsInstance(self, SpecialAptKind)
  {
    if !SameType(self, other) then NotImplemented
    else
      var sameApt := AptEq(self, other);
      Answer(sameApt.eq && HasView(self) == HasView(other.apt))
  }

  /** `GardenApt.__eq__`. */
  function GardenAptEq(self: Apartment, other: PyValue): EqOutcome
    requires self.GardenApt?
  {
    if !SameType(self, other) then NotImplemented
    else
      var sameSpecial := SpecialAptEq(self, other);
      Answer(sameSpecial.eq && GardenArea(self) == GardenArea(other.apt))
  }

  /** `RoofApt.__eq__`. */
  function RoofAptEq(self: Apartment, other: PyValue): EqOutcome
    requires self.RoofApt?
  {
    if !SameType(self, other) then NotImplemented
    else
      var sameSpecial := SpecialAptEq(self, other);
      Answer(sameSpecial.eq && HasPool(self) == HasPool(other.apt))
  }

  /** `self.__eq__(other)`, dispatched on the class of `self`. */
  function EqMethod(self: Apartment, other: PyValue): EqOutcome {
    match self
    case Apt(_, _) => AptEq(self, other)
    case SpecialApt(_, _, _) => SpecialAptEq(self, other)
    case GardenApt(_, _) => GardenAptEq(self, other)
    case RoofApt(_, _, _) => RoofAptEq(self, other)
  }

  /** Every `__eq__` gives up exactly when the types differ. */
  lemma EqMethodNotImplemented(self: Apartment, other: PyValue)
    ensures EqMethod(self, other).NotImplemented? <==> !SameType(self, other)
  {
  }

  /**
   * `a == b`: Python asks `a.__eq__(b)`, then the reflected `b.__eq__(a)`,
   * and when both return `NotImplemented` falls back to `a is b`.  That
   * fallback is reached only when the types differ, so the two are distinct
   * objects and the answer is false.
   */
  function Equals(a: Apartment, b: PyValue): (r: bool)
    ensures r <==> b == AptObject(a)
  {
    var forward := EqMethod(a, b);
    var reflected := if b.AptObject? then EqMethod(b.apt, AptObject(a)) else NotImplemented;
    match (forward, reflected)
    case (Answer(e), _) => e
    case (NotImplemented, Answer(e)) => e
    case (NotImplemented, NotImplemented) => false
  }

  /** `==` is reflexive and symmetric among apartments. */
  lemma EqualsReflexiveSymmetric(a: Apartment, b: Apartment)
    ensures Equals(a, AptObject(a))
    ensures Equals(a, AptObject(b)) == Equals(b, AptObject(a))
  {
  }

  /** An apartment never equals anything that is not an apartment. */
  lemma NeverEqualsOtherObject(a: Apartment)
    ensures !Equals(a, OtherObject)
  {
  }

  /** Apartments of different classes are never equal, even with the same base fields. */
  lemma DifferentKindsNeverEqual(a: Apartment, b: Apartment)
    requires KindOf(a) != KindOf(b)
    ensures !Equals(a, AptObject(b))
  {
  }

  /** Within one class, `==` compares the fields that class's `__eq__` names. */
  lemma EqualsComparesFields(a: Apartment, b: Apartment)
    requires KindOf(a) == KindOf(b)
    ensures a.Apt? ==> (Equals(a, AptObject(b)) <==> Floor(a) == Floor(b) && Area(a) == Area(b))
    ensures a.SpecialApt? ==>
      (Equals(a, AptObject(b)) <==> Floor(a) == Floor(b) && Area(a) == Area(b) && HasView(a) == HasView(b))
    ensures a.GardenApt? ==>
      (Equals(a, AptObject(b)) <==> Area(a) == Area(b) && GardenArea(a) == GardenArea(b))
    ensures a.RoofApt? ==>
      (Equals(a, AptObject(b)) <==> Floor(a) == Floor(b) && Area(a) == Area(b) && HasPool(a) == HasPool(b))
  {
  }

  /** The equality cases of the course's own equality tests. */
  lemma EqualityTestCases()
    ensures Equals(Apt(2, 50), AptObject(Apt(2, 50)))
    ensures !Equals(Apt(2, 50), AptObject(Apt(3, 50))) && !Equals(Apt(2, 50), AptObject(Apt(2, 60)))
    ensures !Equals(Apt(2, 50), OtherObject)
    ensures Equals(SpecialApt(2, 100, true), AptObject(SpecialApt(2, 100, true)))
    ensures !Equals(SpecialApt(2, 100, true), AptObject(SpecialApt(2, 100, false)))
    ensures !Equals(SpecialApt(2, 100, true), AptObject(SpecialApt(3, 100, true)))
    ensures !Equals(SpecialApt(2, 100, true), AptObject(Apt(2, 100)))
    ensures Equals(GardenApt(80, 25), AptObject(GardenApt(80, 25)))
    ensures !Equals(GardenApt(80, 25), AptObject(GardenApt(80, 30)))
    ensures !Equals(GardenApt(80, 25), AptObject(SpecialApt(0, 80, false)))
    ensures Equals(RoofApt(10, 90, true), AptObject(RoofApt(10, 90, true)))
    ensures !Equals(RoofApt(10, 90, true), AptObject(RoofApt(10, 90, false)))
    ensures !Equals(RoofApt(10, 90, true), AptObject(RoofApt(7, 90, true)))
    ensures !Equals(RoofApt(10, 90, true), AptObject(SpecialApt(10, 90, true)))
    ensures !Equals(RoofApt(5, 80, false), AptObject(SpecialApt(5, 80, true)))
    ensures !Equals(GardenApt(80, 30), AptObject(SpecialApt(5, 80, true)))
    ensures Equals(Apt(1, 50), AptObject(Apt(1, 50))) && !Equals(Apt(1, 50), OtherObject)
  {
  }
}
