// The ticket ledger: what a captured truck does to the list of tickets. The
// first open ticket with the recognised plate is closed (outbound leg), or a
// new open ticket is put at the front of the list (inbound leg).

module Ledger {
  import opened Types

  /** The plate strings the recognition service returns when it cannot read a plate. */
  const UnknownPlate: string := "UNKNOWN"
  const ManualCheckPlate: string := "MANUAL_CHECK"

  function Abs(x: real): (r: real)
    ensures r >= 0.0 && (r == x || r == -x)
  {
    if x < 0.0 then -x else x
  }

  /** What a completed ticket bills: the net weight at the ticket's price; negative for a payout. */
  function Cost(netWeight: real, pricePerKg: real): real
  {
    netWeight * pricePerKg
  }

  /** The material shown first, selected at start-up. */
  function DefaultMaterial(): (m: Material)
    ensures m == AvailableMaterials[0]
    ensures m.id == "mixed" && m.pricePerKg == 0.15
  {
    AvailableMaterials[0]
  }

  /**
   * The material the selector switches to for an option id: the catalogue
   * entry with that id, or the first entry when no entry has it.
   */
  function SelectMaterial(id: string): (m: Material)
    ensures m in AvailableMaterials
    ensures forall k :: 0 <= k < |AvailableMaterials| && AvailableMaterials[k].id == id ==>
      m == AvailableMaterials[k]
    ensures (forall k :: 0 <= k < |AvailableMaterials| ==> AvailableMaterials[k].id != id) ==>
      m == AvailableMaterials[0]
  {
    CatalogueIdsDistinct();
    FindMaterial(AvailableMaterials, id)
  }

  /** The first entry of the catalogue with this id, if any: what `find` stops at. */
  predicate FirstWithId(catalogue: seq<Material>, id: string, k: int)
  {
    0 <= k < |catalogue| && catalogue[k].id == id &&
    forall j :: 0 <= j < k ==> catalogue[j].id != id
  }

  /**
   * The first entry of the catalogue with the id, falling back to the
   * catalogue's first entry when none has it.
   */
  function FindMaterial(catalogue: seq<Material>, id: string): (m: Material)
    requires |catalogue| > 0
    ensures m in catalogue
    ensures (exists k :: 0 <= k < |catalogue| && catalogue[k].id == id) ==>
      exists k :: FirstWithId(catalogue, id, k) && catalogue[k] == m
    ensures (forall k :: 0 <= k < |catalogue| ==> catalogue[k].id != id) ==> m == catalogue[0]
  {
    if catalogue[0].id == id || |catalogue| == 1 then
      assert FirstWithId(catalogue, id, 0) || forall k :: 0 <= k < |catalogue| ==> catalogue[k].id != id;
      catalogue[0]
    else
      var rest := catalogue[1..];
      var found := FindMaterial(rest, id);
      if found.id == id then
        FirstAfterHead(catalogue, id);
        found
      else
        assert forall k :: 0 <= k < |rest| ==> rest[k].id != id;
        assert forall k :: 0 < k < |catalogue| ==> catalogue[k] == rest[k - 1];
        catalogue[0]
  }

  /** Past a head without the id, the first entry with it is one further than in the tail. */
  lemma FirstAfterHead(catalogue: seq<Material>, id: string)
    requires |catalogue| > 1 && catalogue[0].id != id
    ensures forall k :: FirstWithId(catalogue[1..], id, k) ==> FirstWithId(catalogue, id, k + 1)
  {
    forall k | FirstWithId(catalogue[1..], id, k) ensures FirstWithId(catalogue, id, k + 1) {
      forall j | 0 <= j < k + 1 ensures catalogue[j].id != id {
        if j > 0 { assert catalogue[j] == catalogue[1..][j - 1]; }
      }
    }
  }

  /** An open ticket for this plate: what the outbound search looks for. */
  predicate IsOpenFor(t: ScaleTicket, plate: string)
  {
    t.licensePlate == plate && t.status == InboundOpen
  }

  /** Index of the first open ticket for the plate, or -1 when there is none. */
  function FindOpenTicket(tickets: seq<ScaleTicket>, plate: string): (r: int)
    ensures -1 <= r < |tickets|
    ensures r >= 0 ==> IsOpenFor(tickets[r], plate)
    ensures r >= 0 ==> forall j :: 0 <= j < r ==> !IsOpenFor(tickets[j], plate)
    ensures r == -1 <==> forall j :: 0 <= j < |tickets| ==> !IsOpenFor(tickets[j], plate)
  {
    if |tickets| == 0 then -1
    else if IsOpenFor(tickets[0], plate) then 0
    else
      var k := FindOpenTicket(tickets[1..], plate);
      if k == -1 then -1 else k + 1
  }

  /** The outbound leg applied to an open ticket. */
  function CloseTicket(t: ScaleTicket, outboundWeight: real, image: string, now: int): (r: ScaleTicket)
    ensures r.status == Completed && Settled(r) && SameInboundLeg(r, t)
    ensures r.outboundWeight == Some(outboundWeight) && r.outboundImage == Some(image) &&
            r.outboundTimestamp == Some(now)
  {
    t.(outboundWeight := Some(outboundWeight),
       outboundImage := Some(image),
       outboundTimestamp := Some(now),
       netWeight := Some(Abs(t.inboundWeight - outboundWeight)),
       totalCost := Some(Cost(Abs(t.inboundWeight - outboundWeight), t.pricePerKg)),
       status := Completed)
  }

  /** The inbound leg: a new open ticket priced with the selected material. */
  function OpenTicket(id: string, plate: string, material: Material, inboundWeight: real,
                      image: string, now: int): (r: ScaleTicket)
    ensures r.status == InboundOpen && Settled(r)
    ensures r.id == id && r.licensePlate == plate && r.inboundWeight == inboundWeight
    ensures r.materialName == material.name && r.pricePerKg == material.pricePerKg
  {
    ScaleTicket(id, plate, None, material.name, material.pricePerKg,
                inboundWeight, image, now, None, None, None, None, None, InboundOpen)
  }

  /** The new ticket list and the ticket just opened or closed. */
  datatype CaptureOutcome = CaptureOutcome(tickets: seq<ScaleTicket>, current: ScaleTicket)

  predicate IdFresh(tickets: seq<ScaleTicket>, id: string)
  {
    forall j :: 0 <= j < |tickets| ==> tickets[j].id != id
  }

  /** The ticket that no outbound leg touched since it was opened. */
  predicate SameInboundLeg(a: ScaleTicket, b: ScaleTicket)
  {
    a.id == b.id && a.licensePlate == b.licensePlate && a.companyName == b.companyName &&
    a.materialName == b.materialName && a.pricePerKg == b.pricePerKg &&
    a.inboundWeight == b.inboundWeight && a.inboundImage == b.inboundImage &&
    a.inboundTimestamp == b.inboundTimestamp
  }

  /**
   * A captured truck with a recognised plate, the current weight, the selected
   * material, a fresh id and the capture time. If a ticket is open for the
   * plate, the first one is closed in place: net weight the distance between
   * the two weighings, cost at the ticket's own price, everything else kept,
   * and no other ticket changed. Otherwise one open ticket is put in front of
   * the unchanged list.
   */
  function HandleCapture(tickets: seq<ScaleTicket>, plate: string, currentWeight: real,
                         selected: Material, freshId: string, image: string, now: int): (r: CaptureOutcome)
    requires IdFresh(tickets, freshId)
    ensures var k := FindOpenTicket(tickets, plate);
      k >= 0 ==>
        |r.tickets| == |tickets| &&
        r.current == r.tickets[k] &&
        SameInboundLeg(r.current, tickets[k]) &&
        r.current.status == Completed &&
        r.current.outboundWeight == Some(currentWeight) &&
        r.current.outboundImage == Some(image) &&
        r.current.outboundTimestamp == Some(now) &&
        r.current.netWeight == Some(Abs(tickets[k].inboundWeight - currentWeight)) &&
        (forall j :: 0 <= j < |tickets| && j != k ==> r.tickets[j] == tickets[j])
    ensures var k := FindOpenTicket(tickets, plate);
      k >= 0 ==> r.current.totalCost == Some(Cost(Abs(tickets[k].inboundWeight - currentWeight), tickets[k].pricePerKg))
    ensures (forall j :: 0 <= j < |tickets| ==> !IsOpenFor(tickets[j], plate)) ==>
      r.tickets == [r.current] + tickets &&
      r.current.id == freshId &&
      r.current.licensePlate == plate &&
      r.current.companyName == None &&
      r.current.status == InboundOpen &&
      r.current.materialName == selected.name &&
      r.current.pricePerKg == selected.pricePerKg &&
      r.current.inboundWeight == currentWeight &&
      r.current.inboundImage == image &&
      r.current.inboundTimestamp == now &&
      r.current.outboundWeight == None && r.current.outboundImage == None &&
      r.current.outboundTimestamp == None &&
      r.current.netWeight == None && r.current.totalCost == None
  {
    var k := FindOpenTicket(tickets, plate);
    if k >= 0 then
      var updated := CloseTicket(tickets[k], currentWeight, image, now);
      CaptureOutcome(tickets[k := updated], updated)
    else
      var created := OpenTicket(freshId, plate, selected, currentWeight, image, now);
      CaptureOutcome([created] + tickets, created)
  }

  // ---------------------------------------------------------------------
  // Invariants of the ticket list
  // ---------------------------------------------------------------------

  /** At most one open ticket per plate. */
  predicate OneOpenPerPlate(tickets: seq<ScaleTicket>)
  {
    forall i, j ::
      (0 <= i < |tickets| && 0 <= j < |tickets| &&
       tickets[i].status == InboundOpen && IsOpenFor(tickets[j], tickets[i].licensePlate)) ==> i == j
  }

  /** Ticket ids are pairwise distinct. */
  predicate DistinctIds(tickets: seq<ScaleTicket>)
  {
    forall i, j :: 0 <= i < j < |tickets| ==> tickets[i].id != tickets[j].id
  }

  /**
   * The optional outbound fields are all present exactly on a completed
   * ticket, and there they hold the net weight and cost of its two weighings.
   */
  predicate Settled(t: ScaleTicket)
  {
    (t.status == Completed <==> t.outboundWeight.Some?) &&
    t.outboundWeight.Some? == t.outboundImage.Some? &&
    t.outboundWeight.Some? == t.outboundTimestamp.Some? &&
    t.outboundWeight.Some? == t.netWeight.Some? &&
    t.outboundWeight.Some? == t.totalCost.Some? &&
    (t.status == Completed ==>
      t.netWeight.value == Abs(t.inboundWeight - t.outboundWeight.value) &&
      t.totalCost.value == Cost(t.netWeight.value, t.pricePerKg))
  }

  predicate AllSettled(tickets: seq<ScaleTicket>)
  {
    forall j :: 0 <= j < |tickets| ==> Settled(tickets[j])
  }

  predicate NoVoid(tickets: seq<ScaleTicket>)
  {
    forall j :: 0 <= j < |tickets| ==> tickets[j].status != Void
  }

  /** The whole ledger invariant, which the empty list has. */
  predicate LedgerInvariant(tickets: seq<ScaleTicket>)
  {
    OneOpenPerPlate(tickets) && DistinctIds(tickets) && AllSettled(tickets) && NoVoid(tickets)
  }

  /**
   * Every capture keeps the ledger invariant: still at most one open ticket
   * per plate, distinct ids, the outbound fields set together exactly on
   * completed tickets, and no ticket voided.
   */
  lemma HandleCaptureKeepsInvariant(tickets: seq<ScaleTicket>, plate: string, currentWeight: real,
                                    selected: Material, freshId: string, image: string, now: int)
    requires IdFresh(tickets, freshId)
    requires LedgerInvariant(tickets)
    ensures LedgerInvariant(HandleCapture(tickets, plate, currentWeight, selected, freshId, image, now).tickets)
  {
    var r := HandleCapture(tickets, plate, currentWeight, selected, freshId, image, now);
    var k := FindOpenTicket(tickets, plate);
    var ts := r.tickets;
    if k >= 0 {
      forall i, j | 0 <= i < |ts| && 0 <= j < |ts| && ts[i].status == InboundOpen &&
                    IsOpenFor(ts[j], ts[i].licensePlate)
        ensures i == j
      {
        assert i != k && j != k;
        assert ts[i] == tickets[i] && ts[j] == tickets[j];
      }
      forall i, j | 0 <= i < j < |ts| ensures ts[i].id != ts[j].id {
        assert ts[i].id == tickets[i].id && ts[j].id == tickets[j].id;
      }
      forall j | 0 <= j < |ts| ensures Settled(ts[j]) && ts[j].status != Void {
        if j != k { assert ts[j] == tickets[j]; }
      }
    } else {
      forall i, j | 0 <= i < |ts| && 0 <= j < |ts| && ts[i].status == InboundOpen &&
                    IsOpenFor(ts[j], ts[i].licensePlate)
        ensures i == j
      {
        if i > 0 && j > 0 {
          assert ts[i] == tickets[i - 1] && ts[j] == tickets[j - 1];
        }
      }
      forall i, j | 0 <= i < j < |ts| ensures ts[i].id != ts[j].id {
        assert ts[j] == tickets[j - 1];
        if i > 0 { assert ts[i] == tickets[i - 1]; }
      }
      forall j | 0 <= j < |ts| ensures Settled(ts[j]) && ts[j].status != Void {
        if j > 0 { assert ts[j] == tickets[j - 1]; }
      }
    }
  }

  /**
   * A weighing round trip: a plate with no open ticket is weighed in and
   * later weighed out; the second capture completes the ticket the first one
   * opened, with the net weight between the two weighings and the cost at the
   * price of the material selected at weigh-in, whatever is selected at
   * weigh-out. Nothing else is created.
   */
  lemma InThenOut(tickets: seq<ScaleTicket>, plate: string, weightIn: real, weightOut: real,
                  materialIn: Material, materialOut: Material, idIn: string, idOut: string,
                  imageIn: string, imageOut: string, timeIn: int, timeOut: int)
    requires IdFresh(tickets, idIn) && IdFresh(tickets, idOut) && idIn != idOut
    requires forall j :: 0 <= j < |tickets| ==> !IsOpenFor(tickets[j], plate)
    ensures var first := HandleCapture(tickets, plate, weightIn, materialIn, idIn, imageIn, timeIn);
      var second := HandleCapture(first.tickets, plate, weightOut, materialOut, idOut, imageOut, timeOut);
      |second.tickets| == |tickets| + 1 &&
      second.tickets[0] == second.current &&
      second.tickets[1..] == tickets &&
      second.current.id == idIn &&
      second.current.status == Completed &&
      second.current.inboundWeight == weightIn &&
      second.current.outboundWeight == Some(weightOut) &&
      second.current.netWeight == Some(Abs(weightIn - weightOut)) &&
      second.current.totalCost == Some(Cost(Abs(weightIn - weightOut), materialIn.pricePerKg))
  {
    var first := HandleCapture(tickets, plate, weightIn, materialIn, idIn, imageIn, timeIn);
    assert first.tickets == [first.current] + tickets;
    assert IdFresh(first.tickets, idOut);
    assert FindOpenTicket(first.tickets, plate) == 0;
    var second := HandleCapture(first.tickets, plate, weightOut, materialOut, idOut, imageOut, timeOut);
    assert second.tickets == first.tickets[0 := second.current];
    assert second.tickets[1..] == first.tickets[1..] == tickets;
  }

  /** The worked example: 12000 kg in, 4000 kg out, at 0.15 per kg. */
  lemma RoundTripExample()
    ensures var first := HandleCapture([], "ABC123", 12000.0, DefaultMaterial(), "t1", "in", 1);
      var second := HandleCapture(first.tickets, "ABC123", 4000.0, AvailableMaterials[3], "t2", "out", 2);
      second.current.status == Completed &&
      second.current.netWeight == Some(8000.0) &&
      second.current.totalCost == Some(1200.0) &&
      |second.tickets| == 1
  {
    InThenOut([], "ABC123", 12000.0, 4000.0, DefaultMaterial(), AvailableMaterials[3],
              "t1", "t2", "in", "out", 1, 2);
  }

  /**
   * Plates are matched as plain strings, sentinels included: two trucks
   * whose plates could not be read (either sentinel) are paired as the
   * inbound and outbound legs of one ticket.
   */
  lemma UnreadPlatesPairUp(plate: string, weightIn: real, weightOut: real, material: Material)
    requires plate == UnknownPlate || plate == ManualCheckPlate
    ensures var first := HandleCapture([], plate, weightIn, material, "t1", "in", 1);
      var second := HandleCapture(first.tickets, plate, weightOut, material, "t2", "out", 2);
      |second.tickets| == 1 && second.current.id == "t1" && second.current.status == Completed
  {
    InThenOut([], plate, weightIn, weightOut, material, material, "t1", "t2", "in", "out", 1, 2);
  }

  /**
   * A capture for one plate leaves every ticket of every other plate as it
   * was, so trucks with distinct plates never close each other's tickets.
   */
  lemma OtherPlatesUntouched(tickets: seq<ScaleTicket>, plate: string, currentWeight: real,
                             selected: Material, freshId: string, image: string, now: int)
    requires IdFresh(tickets, freshId)
    ensures var r := HandleCapture(tickets, plate, currentWeight, selected, freshId, image, now);
      forall t :: t in tickets && t.licensePlate != plate ==> t in r.tickets
    ensures var r := HandleCapture(tickets, plate, currentWeight, selected, freshId, image, now);
      forall j :: 0 <= j < |r.tickets| && r.tickets[j].licensePlate != plate ==> r.tickets[j] in tickets
  {
    var r := HandleCapture(tickets, plate, currentWeight, selected, freshId, image, now);
    var k := FindOpenTicket(tickets, plate);
    if k >= 0 {
      forall t | t in tickets && t.licensePlate != plate ensures t in r.tickets {
        var j :| 0 <= j < |tickets| && tickets[j] == t;
        assert j != k;
        assert r.tickets[j] == t;
      }
      forall j | 0 <= j < |r.tickets| && r.tickets[j].licensePlate != plate ensures r.tickets[j] in tickets {
        assert j != k;
        assert r.tickets[j] == tickets[j];
      }
    } else {
      forall t | t in tickets && t.licensePlate != plate ensures t in r.tickets {
        var j :| 0 <= j < |tickets| && tickets[j] == t;
        assert r.tickets[j + 1] == t;
      }
      forall j | 0 <= j < |r.tickets| && r.tickets[j].licensePlate != plate ensures r.tickets[j] in tickets {
        assert j > 0;
        assert r.tickets[j] == tickets[j - 1];
      }
    }
  }

  /** A completed scrap-metal ticket with a positive net weight is a payout. */
  lemma ScrapMetalIsPayout(t: ScaleTicket)
    requires Settled(t) && t.status == Completed
    requires t.pricePerKg == AvailableMaterials[3].pricePerKg
    requires t.netWeight.value > 0.0
    ensures t.totalCost.value < 0.0
  {
  }
}
