/** The stub backend that fakes a real store: it keeps nothing, so saving
    always reports the location (0, 0) and getting always finds nothing,
    whatever the arguments. */
module DummyStorage {
  import opened RecordLog
  import opened Serialization

  /** `save` reports (0, 0) for every payload. */
  function Save<P>(p: P): (r: Location)
    ensures r.start == 0 && r.size == 0
  {
    Location(0, 0)
  }

  /** `insert` is `save`, so it also reports (0, 0). */
  function Insert<P>(p: P): (r: Location)
    ensures r.start == 0 && r.size == 0
  {
    Save(p)
  }

  /** `update` reports (0, 0) without going through `save`. */
  function Update<P>(p: P): (r: Location)
    ensures r.start == 0 && r.size == 0
  {
    Location(0, 0)
  }

  /** `get` finds nothing, whatever location and status it is given. */
  function Get<P>(start: int, size: int, status: string): (r: Option<P>)
    ensures r == None
  {
    None
  }
}
