/** The parsed events feed as `main` in generate-events.js sees it, and the
    ways a run can fail. */
module Feed {
  import opened Wrappers

  /** A JavaScript value standing in a coordinate slot, kept abstract: `shown`
      is what a template literal prints for it (`String(v)`), `falsy` whether
      `v || 0` discards it (0, -0, NaN, null, the empty string, false). */
  datatype Num = Num(shown: string, falsy: bool)

  /** The number literal `0` that `coords[i] || 0` falls back to. */
  const Zero: Num := Num("0", true)

  /** `feature.properties`; each field is `None` when absent. Only the keys the
      generator reads are kept. */
  datatype Properties = Properties(
    eventName: Option<string>,
    longName: Option<string>,
    shortName: Option<string>,
    location: Option<string>)

  /** `feature.geometry`; `coordinates` is `None` when absent or falsy. */
  datatype Geometry = Geometry(coordinates: Option<seq<Num>>)

  /** One element of `events.features`. */
  datatype Feature = Feature(properties: Option<Properties>, geometry: Option<Geometry>)

  /** `data.events`; `features` is `None` when absent or falsy. */
  datatype Events = Events(features: Option<seq<Feature>>)

  /** The parsed payload `data`; `events` is `None` when absent or falsy. */
  datatype Payload = Payload(events: Option<Events>)

  /** Everything that makes `main` stop and log through its `catch`. */
  datatype Fault =
    | FetchFailed        // the request or `JSON.parse` failed
    | InvalidStructure   // `data.events.features` is missing
    | MissingProperties  // reading `eventname` of an undefined `properties`
    | MissingEventName   // `slugify(undefined)`
    | MissingGeometry    // reading `coordinates` of an undefined `geometry`
}
