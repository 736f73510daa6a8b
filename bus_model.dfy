/**
 * The records of the bus finder: a bus route with its display names,
 * service type and stop lists, and a row of the search history table.
 */
module BusModel {

  datatype Option<T> = None | Some(value: T)

  /** The stop lists of a route: forward may be empty; backward is absent
      (null) or an explicit list. */
  datatype Routes = Routes(forward: seq<string>, backward: Option<seq<string>>)

  /** One bus of the dataset, keyed by its id. name is the legacy display
      name, nameEn and nameBn the English and Bangla ones; kind is the
      optional legacy "type" field. */
  datatype BusRoute = BusRoute(
    id: string,
    name: string,
    nameEn: Option<string>,
    nameBn: Option<string>,
    routes: Routes,
    serviceType: Option<string>,
    kind: Option<string>)

  /** One row of the search_history table; id is the auto-generated key,
      timestamp the wall-clock time in milliseconds of the last save. */
  datatype SearchHistoryItem = SearchHistoryItem(
    id: int,
    fromLocation: string,
    toLocation: string,
    timestamp: int)

  /** `routes.backward ?: emptyList()`. */
  function BackwardOrEmpty(bus: BusRoute): seq<string> {
    match bus.routes.backward
    case None => []
    case Some(b) => b
  }

  /** `routes.forward + (routes.backward ?: emptyList())`: every stop the bus
      lists, in either direction. */
  function AllStops(bus: BusRoute): (r: seq<string>)
    ensures forall s :: s in r <==> s in bus.routes.forward || s in BackwardOrEmpty(bus)
  {
    bus.routes.forward + BackwardOrEmpty(bus)
  }
}
