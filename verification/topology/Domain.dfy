/** The values of the topology domain: service nodes, call edges and the errors
    that the analyzer returns.  Only the fields that the graph algorithms read
    are kept. */
module Domain {
  datatype Option<+T> = None | Some(value: T)

  datatype Error = GraphNotReady | NodeNotFound | PathNotFound

  datatype Result<+T> = Ok(value: T) | Err(error: Error)

  /** Service and edge identifiers: only their equality matters. */
  datatype Uuid = Uuid(bits: nat)

  datatype ServiceStatus = Healthy | Unhealthy | Warning | UnknownStatus

  datatype Importance = Critical | Important | Normal | Edge | UnsetImportance
  {
    function Weight(): (w: real)
      ensures 0.25 <= w <= 1.0
    {
      match this
      case Critical => 1.0
      case Important => 0.75
      case Normal => 0.5
      case Edge => 0.25
      case UnsetImportance => 0.5
    }
  }

  datatype ServiceNode = ServiceNode(
    id: Uuid,
    status: ServiceStatus,
    requestRate: real,
    importance: Importance,
    weight: real)
  {
    function EffectiveWeight(): (w: real)
      ensures w > 0.0
      ensures weight > 0.0 ==> w == weight
      ensures weight <= 0.0 && importance == UnsetImportance ==> w == 0.5
      ensures weight <= 0.0 && importance != UnsetImportance ==> w == importance.Weight()
    {
      if weight > 0.0 then weight else importance.Weight()
    }
  }

  /** More important services weigh more; unset counts as normal. */
  lemma ImportanceOrder()
    ensures Critical.Weight() == 1.0 > Important.Weight() == 0.75
    ensures Important.Weight() > Normal.Weight() == 0.5 > Edge.Weight() == 0.25
    ensures UnsetImportance.Weight() == Normal.Weight()
  {
  }

  datatype CallEdge = CallEdge(
    id: Uuid,
    source: Uuid,
    target: Uuid,
    latency: real,
    errorRate: real)
}
