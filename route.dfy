/**
 The route entity: a directed flight leg from the airport `idFrom` to the
 airport `idTo`, operated by an airline, with a distance in kilometres and a
 price. The graph code reads routes through their getters; `Value` is the
 record a route holds at one moment, which is what the graph code sees.
 */
module Entities {

  /** The fields of a route, as a value. */
  datatype RouteRecord = RouteRecord(id: int, idFrom: int, idTo: int, airlineId: int, km: int, price: int)

  /** The longest leg the entity admits: the Earth's circumference in km. */
  const MAX_KM: int := 40075

  /** The ranges declared on the entity's columns. They are declarations
      only: neither constructor nor setter enforces them. */
  predicate DeclaredRanges(r: RouteRecord) {
    && r.id >= 1001
    && r.idFrom >= 101 && r.idTo >= 101
    && r.airlineId >= 201
    && 1 <= r.km <= MAX_KM
    && r.price >= 1
  }

  class Route {
    var id: int
    var idFrom: int
    var idTo: int
    var airlineId: int
    var km: int
    var price: int

    /** Everything the route holds. */
    function Value(): RouteRecord
      reads this
    {
      RouteRecord(id, idFrom, idTo, airlineId, km, price)
    }

    /** Stores all six values unchanged. */
    constructor (id: int, idFrom: int, idTo: int, airlineId: int, km: int, price: int)
      ensures Value() == RouteRecord(id, idFrom, idTo, airlineId, km, price)
    {
      this.id := id;
      this.idFrom := idFrom;
      this.idTo := idTo;
      this.airlineId := airlineId;
      this.km := km;
      this.price := price;
    }

    /** Stores the five given values; the id keeps the default 0 until the
        database assigns one. */
    constructor WithoutId(idFrom: int, idTo: int, airlineId: int, km: int, price: int)
      ensures Value() == RouteRecord(0, idFrom, idTo, airlineId, km, price)
    {
      this.id := 0;
      this.idFrom := idFrom;
      this.idTo := idTo;
      this.airlineId := airlineId;
      this.km := km;
      this.price := price;
    }

    function GetId(): int reads this { id }
    function GetIdFrom(): int reads this { idFrom }
    function GetIdTo(): int reads this { idTo }
    function GetAirlineId(): int reads this { airlineId }
    function GetKm(): int reads this { km }
    function GetPrice(): int reads this { price }

    method SetId(id: int)
      modifies this
      ensures GetId() == id
      ensures Value() == old(Value()).(id := id)
    {
      this.id := id;
    }

    method SetIdFrom(idFrom: int)
      modifies this
      ensures GetIdFrom() == idFrom
      ensures Value() == old(Value()).(idFrom := idFrom)
    {
      this.idFrom := idFrom;
    }

    method SetIdTo(idTo: int)
      modifies this
      ensures GetIdTo() == idTo
      ensures Value() == old(Value()).(idTo := idTo)
    {
      this.idTo := idTo;
    }

    method SetAirlineId(airlineId: int)
      modifies this
      ensures GetAirlineId() == airlineId
      ensures Value() == old(Value()).(airlineId := airlineId)
    {
      this.airlineId := airlineId;
    }

    method SetKm(km: int)
      modifies this
      ensures GetKm() == km
      ensures Value() == old(Value()).(km := km)
    {
      this.km := km;
    }

    method SetPrice(price: int)
      modifies this
      ensures GetPrice() == price
      ensures Value() == old(Value()).(price := price)
    {
      this.price := price;
    }
  }
}
