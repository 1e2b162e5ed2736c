/**
 * `HalalFullChatbot.handle_order_tracking` (app.py): `dict.get` on a fixed
 * two-entry table, keyed by the order number exactly as given, with a
 * one-field "not found" record as the default.
 */
module OrderTracking {
  import opened Wrappers
  import PyStr

  /**
   * The dictionary the lookup returns: every record has a `status`; only the
   * stored ones have an `estimated_delivery`.
   */
  datatype OrderRecord = OrderRecord(status: string, estimatedDelivery: Option<string>)

  /** The in-method order table. */
  const Orders: map<string, OrderRecord> := map[
    "HF12345" := OrderRecord("Shipped", Some("2-3 days")),
    "HF67890" := OrderRecord("Processing", Some("5-7 days"))
  ]

  /** The default passed to `dict.get`: `{"status": "Order not found"}`. */
  const NotFound: OrderRecord := OrderRecord("Order not found", None)

  /** No stored record looks like the default, so the default always means "absent". */
  lemma StoredRecordsAreNotSentinel()
    ensures forall k :: k in Orders ==> Orders[k] != NotFound && Orders[k].estimatedDelivery.Some?
  {
  }

  function HandleOrderTracking(orderNumber: string): (r: OrderRecord)
    ensures r.estimatedDelivery.Some? <==> orderNumber == "HF12345" || orderNumber == "HF67890"
    ensures r == NotFound <==> orderNumber != "HF12345" && orderNumber != "HF67890"
    ensures orderNumber == "HF12345" ==> r == OrderRecord("Shipped", Some("2-3 days"))
    ensures orderNumber == "HF67890" ==> r == OrderRecord("Processing", Some("5-7 days"))
  {
    if orderNumber in Orders then Orders[orderNumber] else NotFound
  }

  /**
   * The order number is not lower-cased or otherwise normalised: a key that
   * differs from a stored one only in letter case is not found.
   */
  lemma TrackingIsCaseSensitive()
    ensures PyStr.EqualIgnoringCase("hf12345", "HF12345")
    ensures HandleOrderTracking("hf12345") == NotFound
    ensures HandleOrderTracking(PyStr.Lower("HF67890")) == NotFound
  {
  }

  /** Any other order number, such as "UNKNOWN", gets only the "Order not found" status. */
  lemma TrackUnknown()
    ensures HandleOrderTracking("UNKNOWN").status == "Order not found"
    ensures HandleOrderTracking("UNKNOWN").estimatedDelivery.None?
  {
  }
}
