// Records, the ticket status enum and the material catalogue shared by the
// telemetry framer, the stability detector and the ticket ledger.

module Types {

  /** An optional field: `None` stands for an absent (undefined) property. */
  datatype Option<+T> = None | Some(value: T)

  /** The three states a weighing ticket can be in. */
  datatype TicketStatus = InboundOpen | Completed | Void

  /**
   * One weighing ticket. Weights are in kg and prices per kg, as exact reals;
   * images are opaque payloads and timestamps are milliseconds.
   */
  datatype ScaleTicket = ScaleTicket(
    id: string,
    licensePlate: string,
    companyName: Option<string>,
    materialName: string,
    pricePerKg: real,
    inboundWeight: real,
    inboundImage: string,
    inboundTimestamp: int,
    outboundWeight: Option<real>,
    outboundImage: Option<string>,
    outboundTimestamp: Option<int>,
    netWeight: Option<real>,
    totalCost: Option<real>,
    status: TicketStatus)

  /** A material the operator can select; a negative price is a payout. */
  datatype Material = Material(id: string, name: string, pricePerKg: real)

  /** The fixed catalogue of materials, in display order. */
  const AvailableMaterials: seq<Material> := [
    Material("mixed", "Mixed Waste", 0.15),
    Material("concrete", "Clean Concrete", 0.05),
    Material("wood", "Clean Wood", 0.08),
    Material("metal", "Scrap Metal", -0.20)
  ]

  /** The catalogue entries have pairwise distinct ids. */
  predicate DistinctMaterialIds(catalogue: seq<Material>)
  {
    forall i, j :: 0 <= i < j < |catalogue| ==> catalogue[i].id != catalogue[j].id
  }

  lemma CatalogueIdsDistinct()
    ensures |AvailableMaterials| == 4
    ensures DistinctMaterialIds(AvailableMaterials)
    ensures AvailableMaterials[3].name == "Scrap Metal" && AvailableMaterials[3].pricePerKg < 0.0
    ensures forall k :: 0 <= k < 3 ==> AvailableMaterials[k].pricePerKg > 0.0
  {
  }
}
